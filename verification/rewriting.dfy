/** Replacing every match of a pattern by a text, as QString::replace does, and how several
    such replacements act on each other. */
module Rewriting {
  import opened Patterns

  datatype Rule = Rule(pattern: string, text: string)

  /** The first rule with a match at the start of s, or |rules|. */
  function Firing(rules: seq<Rule>, s: string): (k: nat)
    ensures k <= |rules|
    ensures k < |rules| ==> Span(rules[k].pattern, s) > 0
    ensures forall i :: 0 <= i < k ==> Span(rules[i].pattern, s) == 0
  {
    if rules == [] || Span(rules[0].pattern, s) > 0 then 0 else 1 + Firing(rules[1..], s)
  }

  /** s with every match replaced, from left to right. */
  function Rewrite(rules: seq<Rule>, s: string): string
    decreases |s|
  {
    if s == "" then ""
    else
      var k := Firing(rules, s);
      if k < |rules| then rules[k].text + Rewrite(rules, s[Span(rules[k].pattern, s)..])
      else [s[0]] + Rewrite(rules, s[1..])
  }

  /** The text of the first match, or "". */
  function FirstText(p: string, s: string): string {
    if s == "" || Span(p, s) > 0 then s[..Span(p, s)] else FirstText(p, s[1..])
  }

  /** The words of a pattern. */
  ghost predicate Word(p: string, w: string) {
    w != "" && Matches(p, w)
  }

  lemma SpanIsWord(p: string, s: string)
    requires WellSpaced(p) && Span(p, s) > 0
    ensures Word(p, s[..Span(p, s)])
  {
    SpanIsExact(p, s, Span(p, s));
  }

  lemma WordSpans(p: string, w: string, z: string)
    requires WellSpaced(p) && Word(p, w)
    ensures Span(p, w + z) == |w|
  {
    assert (w + z)[..|w|] == w;
    SpanIsExact(p, w + z, |w|);
  }

  // ------------------------------------------------------------ searching before and after

  lemma {:induction false} FirstTextIsFirst(p: string, s: string)
    requires WellSpaced(p) && p != ""
    ensures FirstText(p, s) != "" <==> Contains(p, s)
    ensures FirstText(p, s) != "" ==> Word(p, FirstText(p, s))
  {
    if s == "" {
      FoundMeansSpan(p, s, 0);
    } else {
      FoundMeansSpan(p, s, 0);
      assert s[0..] == s;
      if Span(p, s) > 0 {
        SpanIsWord(p, s);
      } else {
        FirstTextIsFirst(p, s[1..]);
        ContainsTail(p, s, 1);
      }
    }
  }

  lemma ContainsTail(p: string, s: string, n: nat)
    requires WellSpaced(p) && p != "" && n <= |s| && forall x :: 0 <= x < n ==> !Found(p, s, x)
    ensures Contains(p, s) <==> Contains(p, s[n..])
  {
    forall x | n <= x <= |s| ensures Found(p, s, x) <==> Found(p, s[n..], x - n) {
      MatchInSuffix(p, s, n, x - n);
    }
    if Contains(p, s) {
      assert Found(p, s[n..], FirstMatch(p, s, 0) - n);
    }
    if Contains(p, s[n..]) {
      assert Found(p, s, FirstMatch(p, s[n..], 0) + n);
    }
  }

  lemma AbsentTail(p: string, s: string, n: nat)
    requires Absent(p, s) && n <= |s|
    ensures Absent(p, s[n..])
  {
    forall x | 0 <= x <= |s[n..]| ensures !Found(p, s[n..], x) {
      MatchInSuffix(p, s, n, x);
      assert !Found(p, s, n + x);
    }
  }

  // ------------------------------------------------------------------ passing over a text

  lemma SkipsTail(p: string, l: string)
    requires Skips(p, l) && l != ""
    ensures Skips(p, l[1..])
    ensures forall z: string :: Span(p, l + z) == 0
  {
    forall k, z: string | 0 <= k < |l[1..]| ensures Span(p, l[1..][k..] + z) == 0 {
      assert l[1..][k..] == l[k + 1..];
    }
    forall z: string ensures Span(p, l + z) == 0 {
      assert l[0..] == l;
    }
  }

  lemma {:induction false} RewritePasses(rules: seq<Rule>, l: string, z: string)
    requires forall k :: 0 <= k < |rules| ==> Skips(rules[k].pattern, l)
    ensures Rewrite(rules, l + z) == l + Rewrite(rules, z)
  {
    if l == "" {
      assert l + z == z;
    } else {
      forall k | 0 <= k < |rules| ensures Skips(rules[k].pattern, l[1..]) && Span(rules[k].pattern, l + z) == 0 {
        SkipsTail(rules[k].pattern, l);
      }
      assert (l + z)[1..] == l[1..] + z;
      RewritePasses(rules, l[1..], z);
    }
  }

  lemma {:induction false} FirstTextPasses(p: string, l: string, z: string)
    requires Skips(p, l)
    ensures FirstText(p, l + z) == FirstText(p, z)
  {
    if l == "" {
      assert l + z == z;
    } else {
      SkipsTail(p, l);
      assert (l + z)[1..] == l[1..] + z;
      FirstTextPasses(p, l[1..], z);
    }
  }

  lemma WordRewritten(r: Rule, w: string, z: string)
    requires WellSpaced(r.pattern) && Word(r.pattern, w)
    ensures Rewrite([r], w + z) == r.text + Rewrite([r], z)
  {
    WordSpans(r.pattern, w, z);
    assert (w + z)[|w|..] == z;
  }

  // ------------------------------------------------------------ one rule after some others

  /** No match of p runs into a match of a rule's pattern, nor into what replaces it. */
  ghost predicate StopsAt(p: string, rules: seq<Rule>) {
    forall k :: 0 <= k < |rules| ==> StopsAtRule(p, rules[k])
  }

  ghost predicate StopsAtRule(p: string, rule: Rule) {
    && (forall v: string :: Span(rule.pattern, v) > 0 ==> StopsBefore(p, v))
    && (forall z: string :: StopsBefore(p, rule.text + z))
  }

  lemma RewriteFires(rules: seq<Rule>, t: string, k: nat)
    requires k == Firing(rules, t) < |rules|
    ensures Rewrite(rules, t) == rules[k].text + Rewrite(rules, t[Span(rules[k].pattern, t)..])
  {
  }

  lemma RewriteMoves(rules: seq<Rule>, t: string)
    requires t != "" && Firing(rules, t) == |rules|
    ensures Rewrite(rules, t) == [t[0]] + Rewrite(rules, t[1..])
  {
  }

  lemma RewriteNothing(rules: seq<Rule>)
    ensures Rewrite(rules, "") == ""
  {
  }

  lemma StopsAtFiring(p: string, rules: seq<Rule>, t: string)
    requires StopsAt(p, rules) && Firing(rules, t) < |rules|
    ensures StopsBefore(p, t) && StopsBefore(p, Rewrite(rules, t))
  {
    RewriteFires(rules, t, Firing(rules, t));
  }

  lemma Regroup(a: string, b: string, c: string)
    ensures a + b + c == a + (b + c)
  {
  }

  /** Rewriting the rest of a text does not change what p does at its start. */
  lemma {:induction false} SpanKept(p: string, rules: seq<Rule>, u: string, t: string)
    requires WellSpaced(p) && StopsAt(p, rules) && u != ""
    ensures Span(p, u + Rewrite(rules, t)) == Span(p, u + t)
    decreases |t|
  {
    hide *;
    if t == "" {
      RewriteNothing(rules);
    } else {
      if Firing(rules, t) < |rules| {
        StopsAtFiring(p, rules, t);
        SameSpan(p, u, t, Rewrite(rules, t));
      } else {
        var c, rest := [t[0]], t[1..];
        RewriteMoves(rules, t);
        SpanKept(p, rules, u + c, rest);
        Regroup(u, c, rest);
        Regroup(u, c, Rewrite(rules, rest));
        assert t == c + rest;
      }
    }
  }

  lemma SpanKeptHere(p: string, rules: seq<Rule>, t: string)
    requires WellSpaced(p) && StopsAt(p, rules) && t != "" && Firing(rules, t) == |rules|
    ensures Span(p, Rewrite(rules, t)) == Span(p, t)
  {
    hide Rewrite, StopsAt, WellSpaced, Span;
    RewriteMoves(rules, t);
    SpanKept(p, rules, [t[0]], t[1..]);
    assert [t[0]] + t[1..] == t;
  }

  /** In the words of p no rule fires. */
  ghost predicate LeavesWords(rules: seq<Rule>, p: string) {
    forall k :: 0 <= k < |rules| ==> Passes(rules[k].pattern, p) && rules[k].pattern != p
  }

  /** `after` says what r makes of each replacement that `rules` puts in. */
  ghost predicate Through(r: Rule, rules: seq<Rule>, after: seq<Rule>) {
    && |after| == |rules|
    && (forall k :: 0 <= k < |rules| ==> after[k].pattern == rules[k].pattern)
    && (forall k, z: string :: 0 <= k < |rules| ==>
          Rewrite([r], rules[k].text + z) == after[k].text + Rewrite([r], z))
  }

  lemma {:induction false} FiringAppend(rules: seq<Rule>, after: seq<Rule>, r: Rule, t: string)
    requires |after| == |rules| && forall k :: 0 <= k < |rules| ==> after[k].pattern == rules[k].pattern
    ensures Firing(after + [r], t) ==
            if Firing(rules, t) < |rules| || Span(r.pattern, t) > 0 then Firing(rules, t) else |rules| + 1
  {
    var more, k := after + [r], Firing(rules, t);
    assert forall i :: 0 <= i < |rules| ==> more[i] == after[i];
    assert more[|rules|] == r;
    FiringIs(more, t, if k < |rules| || Span(r.pattern, t) > 0 then k else |rules| + 1);
  }

  lemma {:induction false} FiringIs(rules: seq<Rule>, t: string, k: nat)
    requires k <= |rules| && (k < |rules| ==> Span(rules[k].pattern, t) > 0)
    requires forall i :: 0 <= i < k ==> Span(rules[i].pattern, t) == 0
    ensures Firing(rules, t) == k
  {
    if k > 0 {
      FiringIs(rules[1..], t, k - 1);
    }
  }

  /** Replacing by r after the others is replacing by all of them at once, in t. */
  ghost predicate Composes(r: Rule, rules: seq<Rule>, after: seq<Rule>, t: string) {
    Rewrite([r], Rewrite(rules, t)) == Rewrite(after + [r], t)
  }

  lemma ComposesAtRule(r: Rule, rules: seq<Rule>, after: seq<Rule>, t: string)
    requires Through(r, rules, after) && Firing(rules, t) < |rules|
    requires Composes(r, rules, after, t[Span(rules[Firing(rules, t)].pattern, t)..])
    ensures Composes(r, rules, after, t)
  {
    hide Rewrite;
    var k := Firing(rules, t);
    FiringAppend(rules, after, r, t);
    RewriteFires(rules, t, k);
    assert (after + [r])[k] == after[k];
    RewriteFires(after + [r], t, k);
  }

  lemma ComposesAtWord(r: Rule, rules: seq<Rule>, after: seq<Rule>, t: string)
    requires WellSpaced(r.pattern) && LeavesWords(rules, r.pattern) && Through(r, rules, after)
    requires Firing(rules, t) == |rules| && Span(r.pattern, t) > 0
    requires Composes(r, rules, after, t[Span(r.pattern, t)..])
    ensures Composes(r, rules, after, t)
  {
    hide Rewrite, LeavesWords;
    FiringAppend(rules, after, r, t);
    WordAfterOthers(r, rules, t);
    assert (after + [r])[|rules|] == r;
    RewriteFires(after + [r], t, |rules|);
  }

  lemma ComposesBetween(r: Rule, rules: seq<Rule>, after: seq<Rule>, t: string)
    requires WellSpaced(r.pattern) && StopsAt(r.pattern, rules) && Through(r, rules, after) && t != ""
    requires Firing(rules, t) == |rules| && Span(r.pattern, t) == 0
    requires Composes(r, rules, after, t[1..])
    ensures Composes(r, rules, after, t)
  {
    hide Rewrite, StopsAt;
    FiringAppend(rules, after, r, t);
    SpanKeptHere(r.pattern, rules, t);
    RewriteMoves(rules, t);
    RewriteMoves(after + [r], t);
    NothingHere(r, t[0], Rewrite(rules, t[1..]));
  }

  lemma {:induction false} OneAfterOthers(r: Rule, rules: seq<Rule>, after: seq<Rule>, t: string)
    requires WellSpaced(r.pattern) && StopsAt(r.pattern, rules) && Through(r, rules, after)
    requires Absent(r.pattern, t) || LeavesWords(rules, r.pattern)
    ensures Composes(r, rules, after, t)
    decreases |t|
  {
    if t != "" {
      hide *;
      var k, n := Firing(rules, t), Span(r.pattern, t);
      if k < |rules| {
        var e := Span(rules[k].pattern, t);
        AbsentOrNot(r.pattern, t, e);
        OneAfterOthers(r, rules, after, t[e..]);
        ComposesAtRule(r, rules, after, t);
      } else if n > 0 {
        AbsentHere(r.pattern, t);
        AbsentOrNot(r.pattern, t, n);
        OneAfterOthers(r, rules, after, t[n..]);
        ComposesAtWord(r, rules, after, t);
      } else {
        AbsentOrNot(r.pattern, t, 1);
        OneAfterOthers(r, rules, after, t[1..]);
        ComposesBetween(r, rules, after, t);
      }
    }
  }

  lemma AbsentHere(p: string, t: string)
    ensures Absent(p, t) ==> Span(p, t) == 0
  {
    if Absent(p, t) {
      assert !Found(p, t, 0);
    }
  }

  lemma NothingHere(r: Rule, c: char, rest: string)
    requires Span(r.pattern, [c] + rest) == 0
    ensures Rewrite([r], [c] + rest) == [c] + Rewrite([r], rest)
  {
  }

  lemma AbsentOrNot(p: string, t: string, n: nat)
    requires n <= |t|
    ensures Absent(p, t) ==> Absent(p, t[n..])
  {
    if Absent(p, t) {
      AbsentTail(p, t, n);
    }
  }

  lemma WordAfterOthers(r: Rule, rules: seq<Rule>, t: string)
    requires WellSpaced(r.pattern) && LeavesWords(rules, r.pattern) && Span(r.pattern, t) > 0
    ensures var n := Span(r.pattern, t);
      Rewrite([r], Rewrite(rules, t)) == r.text + Rewrite([r], Rewrite(rules, t[n..]))
  {
    var n := Span(r.pattern, t);
    SpanIsWord(r.pattern, t);
    assert t == t[..n] + t[n..];
    RewritePasses(rules, t[..n], t[n..]);
    WordRewritten(r, t[..n], Rewrite(rules, t[n..]));
  }

  /** A rule whose pattern does not occur may as well not be there. */
  lemma {:induction false} IdleRule(rules: seq<Rule>, r: Rule, t: string)
    requires Absent(r.pattern, t)
    ensures Rewrite(rules + [r], t) == Rewrite(rules, t)
    decreases |t|
  {
    if t != "" {
      FiringAppend(rules, rules, r, t);
      assert !Found(r.pattern, t, 0);
      var k := Firing(rules, t);
      var n := if k < |rules| then Span(rules[k].pattern, t) else 1;
      AbsentTail(r.pattern, t, n);
      IdleRule(rules, r, t[n..]);
    }
  }

  lemma FirstTextPastRule(p: string, rule: Rule, t: string, rest: string)
    requires WellSpaced(rule.pattern) && Skips(p, rule.text) && Passes(p, rule.pattern) && p != rule.pattern
    requires Span(rule.pattern, t) > 0
    ensures FirstText(p, t) == FirstText(p, t[Span(rule.pattern, t)..])
    ensures FirstText(p, rule.text + rest) == FirstText(p, rest)
  {
    var e := Span(rule.pattern, t);
    SpanIsWord(rule.pattern, t);
    assert t == t[..e] + t[e..];
    FirstTextPasses(p, t[..e], t[e..]);
    FirstTextPasses(p, rule.text, rest);
  }

  lemma FirstTextHere(p: string, rules: seq<Rule>, t: string)
    requires WellSpaced(p) && LeavesWords(rules, p) && Span(p, t) > 0
    ensures FirstText(p, Rewrite(rules, t)) == FirstText(p, t) == t[..Span(p, t)]
  {
    var n := Span(p, t);
    SpanIsWord(p, t);
    assert t == t[..n] + t[n..];
    RewritePasses(rules, t[..n], t[n..]);
    WordSpans(p, t[..n], Rewrite(rules, t[n..]));
  }

  lemma FirstTextMoves(p: string, c: char, rest: string)
    requires Span(p, [c] + rest) == 0
    ensures FirstText(p, [c] + rest) == FirstText(p, rest)
  {
    assert ([c] + rest)[1..] == rest;
  }

  lemma FirstTextBetween(p: string, rules: seq<Rule>, t: string)
    requires WellSpaced(p) && StopsAt(p, rules) && t != "" && Firing(rules, t) == |rules| && Span(p, t) == 0
    ensures FirstText(p, t) == FirstText(p, t[1..])
    ensures FirstText(p, Rewrite(rules, t)) == FirstText(p, Rewrite(rules, t[1..]))
  {
    SpanKeptHere(p, rules, t);
    RewriteMoves(rules, t);
    assert t == [t[0]] + t[1..];
    FirstTextMoves(p, t[0], t[1..]);
    FirstTextMoves(p, t[0], Rewrite(rules, t[1..]));
  }

  /** The first match of p keeps its text. */
  lemma {:induction false} FirstTextKept(p: string, rules: seq<Rule>, t: string)
    requires WellSpaced(p) && StopsAt(p, rules) && LeavesWords(rules, p)
    requires forall k :: 0 <= k < |rules| ==> WellSpaced(rules[k].pattern)
    requires forall k :: 0 <= k < |rules| ==>
               Skips(p, rules[k].text) && Passes(p, rules[k].pattern) && p != rules[k].pattern
    ensures FirstText(p, Rewrite(rules, t)) == FirstText(p, t)
    decreases |t|
  {
    hide *;
    var k := Firing(rules, t);
    if t == "" {
      RewriteNothing(rules);
    } else if k < |rules| {
      var e := Span(rules[k].pattern, t);
      RewriteFires(rules, t, k);
      FirstTextPastRule(p, rules[k], t, Rewrite(rules, t[e..]));
      FirstTextKept(p, rules, t[e..]);
    } else if Span(p, t) > 0 {
      FirstTextHere(p, rules, t);
    } else {
      FirstTextBetween(p, rules, t);
      FirstTextKept(p, rules, t[1..]);
    }
  }

  lemma OneRule(p: string, rule: Rule)
    ensures StopsAtRule(p, rule) ==> StopsAt(p, [rule])
    ensures Passes(rule.pattern, p) && rule.pattern != p ==> LeavesWords([rule], p)
  {
  }

  /** A rule that finds nothing in what another puts in leaves it alone. */
  lemma ThroughOne(r: Rule, rule: Rule)
    requires Skips(r.pattern, rule.text)
    ensures Through(r, [rule], [rule])
  {
    forall z: string ensures Rewrite([r], rule.text + z) == rule.text + Rewrite([r], z) {
      RewritePasses([r], rule.text, z);
    }
  }

  /** A rule that takes out a word of its own in front of what it passes over. */
  lemma ThroughTwo(r: Rule, first: Rule, second: Rule, first': string, second': string)
    requires WellSpaced(r.pattern) && r.text == ""
    requires ThroughText(r, first.text, first') && ThroughText(r, second.text, second')
    ensures Through(r, [first, second], [Rule(first.pattern, first'), Rule(second.pattern, second')])
  {
    hide Rewrite, ThroughText, WellSpaced;
    var rules, after := [first, second], [Rule(first.pattern, first'), Rule(second.pattern, second')];
    forall k, z: string | 0 <= k < 2
      ensures Rewrite([r], rules[k].text + z) == after[k].text + Rewrite([r], z)
    {
      TextThrough(r, rules[k].text, after[k].text, z);
    }
  }

  /** What is left of a text is what r passes over; if there was more, a word of r in front. */
  ghost predicate ThroughText(r: Rule, text: string, left: string) {
    && Skips(r.pattern, left)
    && (text == left || exists w :: Word(r.pattern, w) && text == w + left)
  }

  lemma TextThrough(r: Rule, text: string, left: string, z: string)
    requires WellSpaced(r.pattern) && r.text == "" && ThroughText(r, text, left)
    ensures Rewrite([r], text + z) == left + Rewrite([r], z)
  {
    RewritePasses([r], left, z);
    if text != left {
      var w :| Word(r.pattern, w) && text == w + left;
      WordRewritten(r, w, left + z);
      Regroup(w, left, z);
    }
  }

  // ------------------------------------------------------- rules that put back what they took

  /** Every match of p in t has the text w. */
  ghost predicate Uniform(p: string, t: string, w: string) {
    forall x :: 0 <= x <= |t| && Found(p, t, x) ==> t[x..MatchEnd(p, t, x)] == w
  }

  /** No match of a rule's pattern starts inside a match of another's or of its own. */
  ghost predicate Apart(rules: seq<Rule>) {
    && (forall k :: 0 <= k < |rules| ==> WellSpaced(rules[k].pattern) && rules[k].pattern != "")
    && (forall j, k :: 0 <= j < k < |rules| ==> rules[j].pattern != rules[k].pattern)
    && (forall j, k :: 0 <= j < |rules| && 0 <= k < |rules| ==> Passes(rules[j].pattern, rules[k].pattern))
  }

  /** No match of p starts in a word of q, except p's own at its start. */
  ghost predicate Passes(p: string, q: string) {
    forall w :: Word(q, w) ==> Skips(p, if p == q then w[1..] else w)
  }

  lemma SameInTail(p: string, t: string, n: nat, x: nat)
    requires n <= x <= |t|
    ensures Found(p, t, x) <==> Found(p, t[n..], x - n)
    ensures Found(p, t, x) ==> t[x..MatchEnd(p, t, x)] == t[n..][x - n..MatchEnd(p, t[n..], x - n)]
  {
    MatchInSuffix(p, t, n, x - n);
  }

  lemma UniformTail(p: string, t: string, w: string, n: nat)
    requires n <= |t|
    ensures Uniform(p, t[n..], w) <==>
            forall x :: n <= x <= |t| && Found(p, t, x) ==> t[x..MatchEnd(p, t, x)] == w
  {
    forall x | n <= x <= |t|
      ensures Found(p, t, x) <==> Found(p, t[n..], x - n)
      ensures Found(p, t, x) ==> t[x..MatchEnd(p, t, x)] == t[n..][x - n..MatchEnd(p, t[n..], x - n)]
    {
      SameInTail(p, t, n, x);
    }
    hide Found, MatchEnd;
    if forall x :: n <= x <= |t| && Found(p, t, x) ==> t[x..MatchEnd(p, t, x)] == w {
      forall y | 0 <= y <= |t[n..]| && Found(p, t[n..], y) ensures t[n..][y..MatchEnd(p, t[n..], y)] == w {
        assert Found(p, t, n + y) <==> Found(p, t[n..], n + y - n);
      }
    }
  }

  lemma UniformHere(p: string, t: string, w: string, n: nat)
    requires WellSpaced(p) && p != "" && 0 < n <= |t|
    requires Span(p, t) == 0 || Span(p, t) == n
    requires forall x :: 0 < x < n ==> !Found(p, t, x)
    ensures Uniform(p, t, w) <==> (Span(p, t) == n ==> t[..n] == w) && Uniform(p, t[n..], w)
  {
    assert t[0..] == t && t[0..n] == t[..n];
    FoundMeansSpan(p, t, 0);
    UniformTail(p, t, w, n);
  }

  lemma {:induction false} UniformFirstText(p: string, t: string, w: string)
    requires WellSpaced(p) && p != "" && Uniform(p, t, w)
    ensures FirstText(p, t) == "" || FirstText(p, t) == w
  {
    FoundMeansSpan(p, t, 0);
    assert t[0..] == t && t[0..Span(p, t)] == t[..Span(p, t)];
    if t != "" && Span(p, t) == 0 {
      UniformTail(p, t, w, 1);
      UniformFirstText(p, t[1..], w);
    }
  }

  lemma SkippedInside(p: string, t: string, from: nat, n: nat)
    requires WellSpaced(p) && p != "" && from <= n <= |t| && Skips(p, t[from..n])
    ensures forall x :: from <= x < n ==> !Found(p, t, x)
  {
    forall x | from <= x < n ensures !Found(p, t, x) {
      assert t[from..n][x - from..] + t[n..] == t[x..];
      FoundMeansSpan(p, t, x);
    }
  }

  /** Where a rule fires, the matches of each pattern are the one there, if it is the rule's
      own, and those behind it. */
  lemma UniformBehind(rules: seq<Rule>, t: string, k: nat, j: nat)
    requires Apart(rules) && k == Firing(rules, t) < |rules| && j < |rules|
    ensures var n, w := Span(rules[k].pattern, t), rules[j].text;
      Uniform(rules[j].pattern, t, w) <==> (j == k ==> t[..n] == w) && Uniform(rules[j].pattern, t[n..], w)
  {
    var p, n := rules[j].pattern, Span(rules[k].pattern, t);
    var from := if j == k then 1 else 0;
    SpanIsWord(rules[k].pattern, t);
    assert Passes(p, rules[k].pattern);
    assert t[..n][1..] == t[1..n] && t[0..n] == t[..n];
    SkippedInside(p, t, from, n);
    assert t[0..] == t;
    FoundMeansSpan(p, t, 0);
    UniformHere(p, t, rules[j].text, n);
  }

  lemma UniformNext(rules: seq<Rule>, t: string, j: nat)
    requires Apart(rules) && t != "" && Firing(rules, t) == |rules| && j < |rules|
    ensures Uniform(rules[j].pattern, t, rules[j].text) <==> Uniform(rules[j].pattern, t[1..], rules[j].text)
  {
    UniformHere(rules[j].pattern, t, rules[j].text, 1);
  }

  /** A text is left alone exactly if every match already is what would replace it. */
  lemma {:induction false} RewriteKeeps(rules: seq<Rule>, t: string)
    requires Apart(rules) && forall k :: 0 <= k < |rules| ==> Word(rules[k].pattern, rules[k].text)
    ensures Rewrite(rules, t) == t <==>
            forall j :: 0 <= j < |rules| ==> Uniform(rules[j].pattern, t, rules[j].text)
    decreases |t|
  {
    if t == "" {
      forall j, x | 0 <= j < |rules| && 0 <= x <= |t| ensures !Found(rules[j].pattern, t, x) {
        FoundMeansSpan(rules[j].pattern, t, x);
      }
    } else {
      var k := Firing(rules, t);
      if k < |rules| {
        var n, w := Span(rules[k].pattern, t), rules[k].text;
        RewriteKeeps(rules, t[n..]);
        forall j | 0 <= j < |rules|
          ensures Uniform(rules[j].pattern, t, rules[j].text) <==>
                  (j == k ==> t[..n] == w) && Uniform(rules[j].pattern, t[n..], rules[j].text)
        {
          UniformBehind(rules, t, k, j);
        }
        SameWord(rules[k].pattern, w, Rewrite(rules, t[n..]), t);
      } else {
        RewriteKeeps(rules, t[1..]);
        forall j | 0 <= j < |rules|
          ensures Uniform(rules[j].pattern, t, rules[j].text) <==> Uniform(rules[j].pattern, t[1..], rules[j].text)
        {
          UniformNext(rules, t, j);
        }
      }
    }
  }

  lemma SameWord(p: string, w: string, z: string, t: string)
    requires WellSpaced(p) && Word(p, w)
    ensures var n := Span(p, t); w + z == t <==> t[..n] == w && z == t[n..]
  {
    WordSpans(p, w, z);
  }

  // ------------------------------------------------------------------ what has been put in

  ghost predicate Stands(w: string, s: string, x: nat) {
    x + |w| <= |s| && s[x..x + |w|] == w
  }

  lemma StandsBehind(w: string, l: string, s: string, x: nat)
    requires Stands(w, s, x)
    ensures Stands(w, l + s, |l| + x)
  {
    assert (l + s)[|l| + x..|l| + x + |w|] == s[x..x + |w|];
  }

  /** The next place at which a rule is tried. */
  function Next(rules: seq<Rule>, t: string): (n: nat)
    requires t != ""
    ensures 0 < n <= |t|
  {
    var k := Firing(rules, t);
    if k < |rules| then Span(rules[k].pattern, t) else 1
  }

  lemma StillContained(rules: seq<Rule>, j: nat, t: string)
    requires Apart(rules) && j < |rules| && Contains(rules[j].pattern, t)
    ensures t != ""
    ensures Firing(rules, t) != j ==> Contains(rules[j].pattern, t[Next(rules, t)..])
  {
    var p, k := rules[j].pattern, Firing(rules, t);
    FoundMeansSpan(p, t, 0);
    assert t[0..] == t;
    if t != "" && k != j {
      var n := Next(rules, t);
      if k < |rules| {
        SpanIsWord(rules[k].pattern, t);
        assert Passes(p, rules[k].pattern);
        assert t[0..n] == t[..n];
        SkippedInside(p, t, 0, n);
      }
      ContainsTail(p, t, n);
    }
  }

  lemma RewriteNext(rules: seq<Rule>, t: string) returns (l: string)
    requires t != ""
    ensures Rewrite(rules, t) == l + Rewrite(rules, t[Next(rules, t)..])
    ensures Firing(rules, t) < |rules| ==> l == rules[Firing(rules, t)].text
  {
    l := if Firing(rules, t) < |rules| then rules[Firing(rules, t)].text else [t[0]];
  }

  /** Where some rule's pattern occurs, its text occurs afterwards. */
  lemma {:induction false} TextIsPutIn(rules: seq<Rule>, j: nat, t: string) returns (x: nat)
    requires Apart(rules) && j < |rules| && Contains(rules[j].pattern, t)
    ensures Stands(rules[j].text, Rewrite(rules, t), x)
    decreases |t|
  {
    hide *;
    StillContained(rules, j, t);
    var l := RewriteNext(rules, t);
    var rest := Rewrite(rules, t[Next(rules, t)..]);
    if Firing(rules, t) == j {
      x := 0;
      StandsFirst(l, rest);
    } else {
      x := TextIsPutIn(rules, j, t[Next(rules, t)..]);
      StandsBehind(rules[j].text, l, rest, x);
      x := |l| + x;
    }
  }

  lemma StandsFirst(w: string, z: string)
    ensures Stands(w, w + z, 0)
  {
  }

  lemma StandsInFront(l: string, w: string, s: string, x: nat)
    requires Stands(l + w, s, x)
    ensures Stands(l, s, x)
  {
    assert s[x..x + |l + w|][..|l|] == s[x..x + |l|];
  }

  lemma ContainsText(p: string, s: string, x: nat, w: string)
    requires WellSpaced(p) && Word(p, w) && Stands(w, s, x)
    ensures Contains(p, s)
  {
    GreedyIsExact(p, s, x, x + |w|);
    assert Found(p, s, x);
  }

  // ------------------------------------------------------------------------ rewriting again

  lemma FiringAtWord(rules: seq<Rule>, k: nat, z: string)
    requires Apart(rules) && k < |rules| && Word(rules[k].pattern, rules[k].text)
    ensures Firing(rules, rules[k].text + z) == k && Span(rules[k].pattern, rules[k].text + z) == |rules[k].text|
  {
    var w := rules[k].text;
    WordSpans(rules[k].pattern, w, z);
    forall i | 0 <= i < k ensures Span(rules[i].pattern, w + z) == 0 {
      assert Passes(rules[i].pattern, rules[k].pattern) && Skips(rules[i].pattern, w);
      SkipsTail(rules[i].pattern, w);
    }
    FiringIs(rules, w + z, k);
  }

  lemma {:induction false} SameFiring(rules: seq<Rule>, again: seq<Rule>, t: string)
    requires |again| == |rules| && forall k :: 0 <= k < |rules| ==> again[k].pattern == rules[k].pattern
    ensures Firing(again, t) == Firing(rules, t)
  {
    FiringIs(again, t, Firing(rules, t));
  }

  ghost predicate StopsAtEachOther(rules: seq<Rule>) {
    forall k :: 0 <= k < |rules| ==> StopsAt(rules[k].pattern, rules)
  }

  lemma StillNoneFires(rules: seq<Rule>, t: string)
    requires Apart(rules) && StopsAtEachOther(rules) && t != "" && Firing(rules, t) == |rules|
    ensures Firing(rules, Rewrite(rules, t)) == |rules|
  {
    forall k | 0 <= k < |rules| ensures Span(rules[k].pattern, Rewrite(rules, t)) == 0 {
      SpanKeptHere(rules[k].pattern, rules, t);
    }
    FiringIs(rules, Rewrite(rules, t), |rules|);
  }

  lemma AgainAtRule(rules: seq<Rule>, again: seq<Rule>, t: string)
    requires Apart(rules) && Firing(rules, t) < |rules|
    requires |again| == |rules| && forall k :: 0 <= k < |rules| ==> again[k].pattern == rules[k].pattern
    requires Word(rules[Firing(rules, t)].pattern, rules[Firing(rules, t)].text)
    ensures var k := Firing(rules, t);
      var rest := t[Span(rules[k].pattern, t)..];
      && Rewrite(again, Rewrite(rules, t)) == again[k].text + Rewrite(again, Rewrite(rules, rest))
      && Rewrite(again, t) == again[k].text + Rewrite(again, rest)
  {
    hide Rewrite, Firing, Span, Apart, Word;
    var k := Firing(rules, t);
    var rest := t[Span(rules[k].pattern, t)..];
    var w, z := rules[k].text, Rewrite(rules, rest);
    RewriteFires(rules, t, k);
    FiringAtWord(rules, k, z);
    SameFiring(rules, again, w + z);
    SameFiring(rules, again, t);
    RewriteFires(again, w + z, k);
    RewriteFires(again, t, k);
    assert (w + z)[|w|..] == z;
  }

  lemma AgainBetween(rules: seq<Rule>, again: seq<Rule>, t: string)
    requires Apart(rules) && StopsAtEachOther(rules) && t != "" && Firing(rules, t) == |rules|
    requires |again| == |rules| && forall k :: 0 <= k < |rules| ==> again[k].pattern == rules[k].pattern
    ensures Rewrite(again, Rewrite(rules, t)) == [t[0]] + Rewrite(again, Rewrite(rules, t[1..]))
    ensures Rewrite(again, t) == [t[0]] + Rewrite(again, t[1..])
  {
    hide Rewrite, Firing, Span, Apart, StopsAtEachOther;
    var all := Rewrite(rules, t);
    RewriteMoves(rules, t);
    StillNoneFires(rules, t);
    SameFiring(rules, again, all);
    SameFiring(rules, again, t);
    RewriteMoves(again, all);
    RewriteMoves(again, t);
    assert all[1..] == Rewrite(rules, t[1..]);
  }

  /** Putting in words of the patterns first makes no difference to what is put in next. */
  lemma {:induction false} RewriteAgain(rules: seq<Rule>, again: seq<Rule>, t: string)
    requires Apart(rules) && StopsAtEachOther(rules)
    requires |again| == |rules| && forall k :: 0 <= k < |rules| ==> again[k].pattern == rules[k].pattern
    requires forall k :: 0 <= k < |rules| ==> Word(rules[k].pattern, rules[k].text)
    ensures Rewrite(again, Rewrite(rules, t)) == Rewrite(again, t)
    decreases |t|
  {
    hide *;
    var k := Firing(rules, t);
    if t == "" {
      RewriteNothing(rules);
    } else if k < |rules| {
      AgainAtRule(rules, again, t);
      RewriteAgain(rules, again, t[Span(rules[k].pattern, t)..]);
    } else {
      AgainBetween(rules, again, t);
      RewriteAgain(rules, again, t[1..]);
    }
  }

  lemma NewFirstTextAtRule(rules: seq<Rule>, j: nat, t: string)
    requires Apart(rules) && j < |rules| && Firing(rules, t) < |rules|
    requires forall k :: 0 <= k < |rules| ==> Word(rules[k].pattern, rules[k].text)
    ensures var k, p := Firing(rules, t), rules[j].pattern;
      var rest := t[Span(rules[k].pattern, t)..];
      if k == j then FirstText(p, t) != "" && FirstText(p, Rewrite(rules, t)) == rules[j].text
      else
        && FirstText(p, t) == FirstText(p, rest)
        && FirstText(p, Rewrite(rules, t)) == FirstText(p, Rewrite(rules, rest))
  {
    var k, p := Firing(rules, t), rules[j].pattern;
    var z := Rewrite(rules, t[Span(rules[k].pattern, t)..]);
    RewriteFires(rules, t, k);
    if k == j {
      WordSpans(p, rules[k].text, z);
    } else {
      assert Passes(p, rules[k].pattern) && p != rules[k].pattern && Skips(p, rules[k].text);
      FirstTextPastRule(p, rules[k], t, z);
    }
  }

  /** The first match then has the text put in. */
  lemma {:induction false} NewFirstText(rules: seq<Rule>, j: nat, t: string)
    requires Apart(rules) && StopsAtEachOther(rules) && j < |rules|
    requires forall k :: 0 <= k < |rules| ==> Word(rules[k].pattern, rules[k].text)
    ensures FirstText(rules[j].pattern, Rewrite(rules, t)) ==
            if FirstText(rules[j].pattern, t) == "" then "" else rules[j].text
    decreases |t|
  {
    var k, p := Firing(rules, t), rules[j].pattern;
    hide Rewrite, FirstText, Firing, Span, StopsAt, Word, Passes;
    if t == "" {
      RewriteNothing(rules);
      NoFirstText(p);
    } else if k < |rules| {
      NewFirstTextAtRule(rules, j, t);
      if k != j {
        NewFirstText(rules, j, t[Span(rules[k].pattern, t)..]);
      }
    } else {
      NoneFires(rules, t, j);
      FirstTextBetween(p, rules, t);
      NewFirstText(rules, j, t[1..]);
    }
  }

  lemma NoneFires(rules: seq<Rule>, t: string, j: nat)
    requires Firing(rules, t) == |rules| && j < |rules|
    ensures Span(rules[j].pattern, t) == 0
  {
  }

  lemma NoFirstText(p: string)
    ensures FirstText(p, "") == ""
  {
  }

  // ------------------------------------------------------------------------------- letters

  /** A character comes out only if it went in. */
  lemma {:induction false} RewriteLetters(rules: seq<Rule>, t: string, c: char)
    requires c !in t && forall k :: 0 <= k < |rules| ==> c !in rules[k].text
    ensures c !in Rewrite(rules, t)
    decreases |t|
  {
    if t != "" {
      var k := Firing(rules, t);
      RewriteLetters(rules, if k < |rules| then t[Span(rules[k].pattern, t)..] else t[1..], c);
    }
  }

  lemma {:induction false} FirstTextLetters(p: string, t: string, c: char)
    requires c !in t
    ensures c !in FirstText(p, t)
  {
    if t != "" && Span(p, t) == 0 {
      FirstTextLetters(p, t[1..], c);
    }
  }

  // --------------------------------------------------------------------- one match of each

  ghost predicate Quiet(rules: seq<Rule>, t: string, from: nat, to: nat) {
    forall k, x :: 0 <= k < |rules| && from <= x < to && x <= |t| ==> !Found(rules[k].pattern, t, x)
  }

  lemma {:induction false} RewriteQuietly(rules: seq<Rule>, t: string, i: nat, j: nat)
    requires i <= j <= |t| && Quiet(rules, t, i, j)
    requires forall k :: 0 <= k < |rules| ==> WellSpaced(rules[k].pattern) && rules[k].pattern != ""
    ensures Rewrite(rules, t[i..]) == t[i..j] + Rewrite(rules, t[j..])
    decreases j - i
  {
    hide Rewrite, Quiet, WellSpaced, Firing;
    if i < j {
      QuietHere(rules, t, i, j);
      RewriteMoves(rules, t[i..]);
      assert t[i..][1..] == t[i + 1..];
      RewriteQuietly(rules, t, i + 1, j);
      assert t[i..j] == [t[i]] + t[i + 1..j];
      Regroup([t[i]], t[i + 1..j], Rewrite(rules, t[j..]));
    }
  }

  lemma QuietHere(rules: seq<Rule>, t: string, i: nat, j: nat)
    requires i < j <= |t| && Quiet(rules, t, i, j)
    requires forall k :: 0 <= k < |rules| ==> WellSpaced(rules[k].pattern) && rules[k].pattern != ""
    ensures Firing(rules, t[i..]) == |rules| && Quiet(rules, t, i + 1, j)
  {
    forall k | 0 <= k < |rules| ensures Span(rules[k].pattern, t[i..]) == 0 {
      FoundMeansSpan(rules[k].pattern, t, i);
    }
    FiringIs(rules, t[i..], |rules|);
  }

  lemma RewriteAt(rules: seq<Rule>, t: string, k: nat, i: nat)
    requires Apart(rules) && k < |rules| && Found(rules[k].pattern, t, i)
    ensures MatchEnd(rules[k].pattern, t, i) > i && Word(rules[k].pattern, t[i..MatchEnd(rules[k].pattern, t, i)])
    ensures Rewrite(rules, t[i..]) == rules[k].text + Rewrite(rules, t[MatchEnd(rules[k].pattern, t, i)..])
  {
    hide Span, MatchEnd, Word, Matches, WellSpaced, Rewrite, Firing;
    var p, e := rules[k].pattern, MatchEnd(rules[k].pattern, t, i);
    FoundMeansSpan(p, t, i);
    SpanIsWord(p, t[i..]);
    assert t[i..][..e - i] == t[i..e] && t[i..][e - i..] == t[e..];
    FiringAtMatch(rules, k, t[i..e], t[e..]);
    assert t[i..] == t[i..e] + t[e..];
    RewriteFires(rules, t[i..], k);
  }

  lemma FiringAtMatch(rules: seq<Rule>, k: nat, w: string, z: string)
    requires Apart(rules) && k < |rules| && Word(rules[k].pattern, w)
    ensures Firing(rules, w + z) == k && Span(rules[k].pattern, w + z) == |w|
  {
    WordSpans(rules[k].pattern, w, z);
    forall i | 0 <= i < k ensures Span(rules[i].pattern, w + z) == 0 {
      assert Passes(rules[i].pattern, rules[k].pattern) && Skips(rules[i].pattern, w);
      SkipsTail(rules[i].pattern, w);
    }
    FiringIs(rules, w + z, k);
  }

  /** With one match of each of two patterns, just those two places are rewritten. */
  lemma OneOfEachRewritten(rules: seq<Rule>, t: string, a: nat, b: nat, i: nat, j: nat)
    requires Apart(rules) && |rules| == 2 && a < 2 && b == 1 - a
    requires Unique(rules[a].pattern, t, i) && Unique(rules[b].pattern, t, j) && i < j
    ensures var e, f := MatchEnd(rules[a].pattern, t, i), MatchEnd(rules[b].pattern, t, j);
      && i < e <= j < f
      && Rewrite(rules, t) == t[..i] + rules[a].text + t[e..j] + rules[b].text + t[f..]
  {
    hide Rewrite, MatchEnd, Found, Apart, Word, WellSpaced;
    UniqueIsFound(rules[a].pattern, t, i);
    UniqueIsFound(rules[b].pattern, t, j);
    var e, f := MatchEnd(rules[a].pattern, t, i), MatchEnd(rules[b].pattern, t, j);
    RewriteAt(rules, t, a, i);
    RewriteAt(rules, t, b, j);
    NotInside(rules, t, a, b, i, j);
    ApartIsWellSpaced(rules);
    RewriteQuietly(rules, t, 0, i);
    RewriteQuietly(rules, t, e, j);
    RewriteQuietly(rules, t, f, |t|);
    RewriteNothing(rules);
    assert t[0..] == t && t[0..i] == t[..i] && t[|t|..] == "" && t[f..|t|] == t[f..];
    assert t[f..] + "" == t[f..];
    FourParts(t[..i], rules[a].text, t[e..j], rules[b].text, t[f..]);
  }

  lemma FourParts(a: string, b: string, c: string, d: string, e: string)
    ensures a + (b + (c + (d + e))) == a + b + c + d + e
  {
  }

  lemma UniqueIsFound(p: string, t: string, i: nat)
    requires Unique(p, t, i)
    ensures i <= |t| && Found(p, t, i) && i <= MatchEnd(p, t, i) <= |t|
  {
  }

  lemma ApartIsWellSpaced(rules: seq<Rule>)
    requires Apart(rules)
    ensures forall k :: 0 <= k < |rules| ==> WellSpaced(rules[k].pattern) && rules[k].pattern != ""
  {
  }

  lemma NotInside(rules: seq<Rule>, t: string, a: nat, b: nat, i: nat, j: nat)
    requires Apart(rules) && a < |rules| && b < |rules| && a != b
    requires Found(rules[a].pattern, t, i) && Found(rules[b].pattern, t, j) && i < j
    ensures MatchEnd(rules[a].pattern, t, i) <= j
  {
    var p, e := rules[a].pattern, MatchEnd(rules[a].pattern, t, i);
    FoundMeansSpan(p, t, i);
    SpanIsWord(p, t[i..]);
    assert Passes(rules[b].pattern, p);
    DistinctPatterns(rules, a, b);
    assert t[i..][..e - i] == t[i..e];
    SkippedInside(rules[b].pattern, t, i, e);
  }

  lemma DistinctPatterns(rules: seq<Rule>, a: nat, b: nat)
    requires Apart(rules) && a < |rules| && b < |rules| && a != b
    ensures rules[a].pattern != rules[b].pattern
  {
  }

  /** One match is the first. */
  lemma UniqueFirstText(p: string, t: string, i: nat)
    requires WellSpaced(p) && p != "" && Unique(p, t, i)
    ensures Contains(p, t) && FirstText(p, t) == t[i..MatchEnd(p, t, i)]
  {
    UniqueIsFirst(p, t, i);
    FirstTextIsFirst(p, t);
    assert Uniform(p, t, t[i..MatchEnd(p, t, i)]);
    UniformFirstText(p, t, t[i..MatchEnd(p, t, i)]);
  }
}
