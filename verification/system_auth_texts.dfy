/** Actual system-auth texts: one that enabling and disabling restore, and one that they do
    not. */
module SystemAuthTexts {
  import opened Patterns
  import opened Rewriting
  import opened SystemAuth

  const ONE_BLANK := "auth sufficient pam_unix.so"
  const TWO_BLANKS := "auth  sufficient pam_unix.so"
  const ACCOUNT := "account required pam_unix.so"

  /** One match of each anchor; and two matches of the first, which differ. */
  const EVEN := ONE_BLANK + "\n" + ACCOUNT
  const UNEVEN := ONE_BLANK + ("\n" + TWO_BLANKS + "\n") + ACCOUNT

  // --------------------------------------------------------------------- words of the anchors

  lemma UnixMatches()
    ensures Matches("pam_unix?so", "pam_unix.so")
  {
    PlainIsItself("so");
    assert "?so"[1..] == "so" && ".so"[1..] == "so";
    PlainWord("pam_unix", "?so", ".so");
    assert "pam_unix" + "?so" == "pam_unix?so" && "pam_unix" + ".so" == "pam_unix.so";
  }

  lemma AuthAnchorInParts()
    ensures "auth" + ("~" + ("sufficient" + ("~" + "pam_unix?so"))) == AUTH_ANCHOR
  {
  }

  lemma OneBlankInParts()
    ensures "auth" + (Blanks(1) + ("sufficient" + (Blanks(1) + "pam_unix.so"))) == ONE_BLANK
  {
    assert Blanks(1) == " ";
  }

  lemma TwoBlanksInParts()
    ensures "auth" + (Blanks(2) + ("sufficient" + (Blanks(1) + "pam_unix.so"))) == TWO_BLANKS
  {
    assert Blanks(1) == " " && Blanks(2) == "  ";
  }

  lemma AccountInParts()
    ensures "account" + ("~" + ("required" + ("~" + "pam_unix?so"))) == ACCOUNT_ANCHOR
    ensures "account" + (Blanks(1) + ("required" + (Blanks(1) + "pam_unix.so"))) == ACCOUNT
  {
    assert Blanks(1) == " ";
  }

  lemma TheseAreWords()
    ensures Matches(AUTH_ANCHOR, ONE_BLANK) && Matches(AUTH_ANCHOR, TWO_BLANKS) && Matches(ACCOUNT_ANCHOR, ACCOUNT)
  {
    UnixMatches();
    FirstWordsArePlain();
    AuthAnchorInParts();
    OneBlankInParts();
    TwoBlanksInParts();
    AccountInParts();
    hide Matches, AllPlain, Blanks, ONE_BLANK, TWO_BLANKS, ACCOUNT, AUTH_ANCHOR, ACCOUNT_ANCHOR;
    ThreeWords("auth", 1, "sufficient", 1, "pam_unix?so", "pam_unix.so");
    ThreeWords("auth", 2, "sufficient", 1, "pam_unix?so", "pam_unix.so");
    ThreeWords("account", 1, "required", 1, "pam_unix?so", "pam_unix.so");
  }

  // ---------------------------------------------------------------------------- no includes

  lemma {:induction false} LetterInWord(p: string, w: string, c: char)
    requires Matches(p, w) && c in p && c != '~' && c != '?'
    ensures c in w
    decreases |w|
  {
    if Matches(p[1..], w[1..]) && p[0] != c {
      assert p == [p[0]] + p[1..];
      LetterInWord(p[1..], w[1..], c);
    } else if p[0] != c {
      LetterInWord(p, w[1..], c);
    }
  }

  lemma NoLetterNoMatch(p: string, t: string, c: char)
    requires WellSpaced(p) && c in p && c != '~' && c != '?' && c !in t
    ensures !Contains(p, t)
  {
    if Contains(p, t) {
      var x := FirstMatch(p, t, 0);
      var w := t[x..MatchEnd(p, t, x)];
      GreedyIsExact(p, t, x, MatchEnd(p, t, x));
      LetterInWord(p, w, c);
    }
  }

  lemma IncludesHoldAK()
    ensures 'k' in AUTH_INCLUDE && 'k' in ACCOUNT_INCLUDE
  {
    assert AUTH_INCLUDE[13] == 'k' && ACCOUNT_INCLUDE[16] == 'k';
  }

  lemma TheseHoldNoK()
    ensures 'k' !in ONE_BLANK && 'k' !in TWO_BLANKS && 'k' !in ACCOUNT
  {
  }

  lemma TheseAreText()
    ensures 0 < |ONE_BLANK| < |TWO_BLANKS| && ACCOUNT != ""
  {
  }

  lemma NoIncludes(t: string)
    requires 'k' !in t
    ensures !Contains(AUTH_INCLUDE, t) && !Contains(ACCOUNT_INCLUDE, t)
  {
    IncludesHoldAK();
    IncludesAreWellSpaced();
    hide WellSpaced, Contains, AUTH_INCLUDE, ACCOUNT_INCLUDE;
    NoLetterNoMatch(AUTH_INCLUDE, t, 'k');
    NoLetterNoMatch(ACCOUNT_INCLUDE, t, 'k');
  }

  lemma ContainsBoth(p: string, w: string, between: string, q: string, c: string)
    requires WellSpaced(p) && WellSpaced(q) && Word(p, w) && Word(q, c)
    ensures var t := w + between + c; Contains(p, t) && Contains(q, t) && FirstText(p, t) == w
  {
    hide WellSpaced, Word, Contains;
    var t := w + between + c;
    assert Stands(w, t, 0) && Stands(c, t, |w + between|);
    ContainsText(p, t, 0, w);
    ContainsText(q, t, |w + between|, c);
    assert t == w + (between + c);
    WordSpans(p, w, between + c);
    WordIsNotEmpty(p, w);
  }

  lemma WordIsNotEmpty(p: string, w: string)
    requires Word(p, w)
    ensures w != ""
  {
  }

  /** A text without a 'k' that starts with an auth anchor and ends with an account anchor can
      be enabled. */
  lemma WordsAreEnabled(w: string, between: string, c: string)
    requires Word(AUTH_ANCHOR, w) && Word(ACCOUNT_ANCHOR, c)
    requires 'k' !in w && 'k' !in between && 'k' !in c
    ensures EnableSystem(SYSTEM_AUTH, w + between + c).Rewritten?
    ensures FirstText(AUTH_ANCHOR, w + between + c) == w
  {
    AnchorsAreWellSpaced();
    hide WellSpaced, Word, Contains, EnableSystem, AUTH_ANCHOR, ACCOUNT_ANCHOR, AUTH_INCLUDE, ACCOUNT_INCLUDE;
    hide DisableSystem, Uniform, Leveled, WithLines, FirstText;
    var t := w + between + c;
    NoIncludes(t);
    ContainsBoth(AUTH_ANCHOR, w, between, ACCOUNT_ANCHOR, c);
    SystemAuthRoundTrip(t);
  }

  // ------------------------------------------------------------------------- the two texts

  lemma EvenIsEnabled()
    ensures EnableSystem(SYSTEM_AUTH, EVEN).Rewritten?
  {
    TheseAreWords();
    TheseHoldNoK();
    TheseAreText();
    hide Matches, EnableSystem, ONE_BLANK, ACCOUNT, AUTH_ANCHOR, ACCOUNT_ANCHOR;
    WordsAreEnabled(ONE_BLANK, "\n", ACCOUNT);
  }

  /** Both anchors of that text agree with themselves. */
  lemma EvenIsEven()
    ensures Uniform(AUTH_ANCHOR, EVEN, FirstText(AUTH_ANCHOR, EVEN))
    ensures Uniform(ACCOUNT_ANCHOR, EVEN, FirstText(ACCOUNT_ANCHOR, EVEN))
  {
    TheseAreWords();
    TheseAreText();
    AllAreStarters();
    AllPass();
    SecondLetters();
    hide Starter, Passes, WellSpaced, Uniform, Matches, AUTH_ANCHOR, ACCOUNT_ANCHOR, ONE_BLANK, ACCOUNT, FirstText;
    StarterIsWellSpaced(AUTH_ANCHOR);
    StarterIsWellSpaced(ACCOUNT_ANCHOR);
    TwoWordsAreUniform(AUTH_ANCHOR, ONE_BLANK, ACCOUNT_ANCHOR, ACCOUNT);
    UniformOwnText(AUTH_ANCHOR, EVEN, ONE_BLANK);
    UniformOwnText(ACCOUNT_ANCHOR, EVEN, ACCOUNT);
  }

  lemma StarterIsWellSpaced(p: string)
    requires Starter(p)
    ensures WellSpaced(p) && p != ""
  {
  }

  lemma UniformOwnText(p: string, t: string, w: string)
    requires WellSpaced(p) && p != "" && Uniform(p, t, w)
    ensures Uniform(p, t, FirstText(p, t))
  {
    UniformFirstText(p, t, w);
    FirstTextIsFirst(p, t);
  }

  lemma NoStartAtNewline(p: string, z: string)
    requires Starter(p)
    ensures Span(p, "\n" + z) == 0
  {
    if Span(p, "\n" + z) > 0 {
      StarterSpan(p, "\n" + z);
    }
  }

  lemma TwoWordsStay(rules: seq<Rule>, w: string, c: string)
    requires Apart(rules) && |rules| == 2 && rules[0].text == w && rules[1].text == c
    requires Word(rules[0].pattern, w) && Word(rules[1].pattern, c)
    requires Firing(rules, "\n" + c) == 2
    ensures Rewrite(rules, w + ("\n" + c)) == w + ("\n" + c)
  {
    hide Apart, Word, Rewrite, Firing, Span;
    FiringAtWord(rules, 0, "\n" + c);
    RewriteFires(rules, w + ("\n" + c), 0);
    assert (w + ("\n" + c))[|w|..] == "\n" + c;
    RewriteMoves(rules, "\n" + c);
    assert ("\n" + c)[1..] == c && c + "" == c;
    FiringAtWord(rules, 1, "");
    RewriteFires(rules, c, 1);
    RewriteNothing(rules);
  }

  lemma TwoWordsAreUniform(p: string, w: string, q: string, c: string)
    requires Starter(p) && Starter(q) && p != q && Word(p, w) && Word(q, c)
    requires Passes(p, p) && Passes(p, q) && Passes(q, p) && Passes(q, q)
    ensures Uniform(p, w + "\n" + c, w) && Uniform(q, w + "\n" + c, c)
  {
    hide Starter, Passes, WellSpaced, Word, Uniform, Rewrite, Firing, Span;
    var rules := [Rule(p, w), Rule(q, c)];
    StarterIsWellSpaced(p);
    StarterIsWellSpaced(q);
    NoStartAtNewline(p, c);
    NoStartAtNewline(q, c);
    assert Apart(rules);
    hide Apart;
    FiringIs(rules, "\n" + c, 2);
    TwoWordsStay(rules, w, c);
    Regroup(w, "\n", c);
    RewriteKeeps(rules, w + "\n" + c);
    assert rules[0].text == w && rules[1].text == c;
  }

  lemma DifferentTexts(p: string, w: string, w': string, before: string, after: string)
    requires WellSpaced(p) && Matches(p, w') && w' != w
    ensures !Uniform(p, before + w' + after, w)
  {
    var t, x := before + w' + after, |before|;
    assert t[x..x + |w'|] == w';
    GreedyIsExact(p, t, x, x + |w'|);
    assert Found(p, t, x);
  }

  /** A text that enabling and disabling do not give back: the second auth anchor has lost one
      of its blanks. */
  lemma UnevenIsNotRestored()
    ensures EnableSystem(SYSTEM_AUTH, UNEVEN).Rewritten?
    ensures DisableSystem(SYSTEM_AUTH, EnableSystem(SYSTEM_AUTH, UNEVEN).text).Rewritten?
    ensures DisableSystem(SYSTEM_AUTH, EnableSystem(SYSTEM_AUTH, UNEVEN).text).text != UNEVEN
  {
    TheseAreWords();
    TheseHoldNoK();
    TheseAreText();
    AnchorsAreWellSpaced();
    SystemAuthRoundTrip(UNEVEN);
    hide Matches, EnableSystem, DisableSystem, Uniform, Leveled, FirstText, WellSpaced;
    hide ONE_BLANK, TWO_BLANKS, ACCOUNT, AUTH_ANCHOR, ACCOUNT_ANCHOR;
    WordsAreEnabled(ONE_BLANK, "\n" + TWO_BLANKS + "\n", ACCOUNT);
    DifferentTexts(AUTH_ANCHOR, ONE_BLANK, TWO_BLANKS, ONE_BLANK + "\n", "\n" + ACCOUNT);
    assert UNEVEN == (ONE_BLANK + "\n") + TWO_BLANKS + ("\n" + ACCOUNT);
  }
}
