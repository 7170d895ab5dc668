/** Actual kiran-authentication-service texts: the two lines, with some mark in front of the
    multi-factor line. */
module KiranTexts {
  import opened Patterns
  import opened Rewriting
  import opened TextEncoding
  import opened SystemAuth
  import opened SystemAuthTexts
  import opened KiranAuth
  import opened KiranFailing

  const WAY_START := "[success=done ignore=2 "
  const WAY_END := "default=bad authinfo_unavail=die]"
  const WAY := WAY_START + WAY_END
  const FACTOR := "[success=2 default=bad]"
  const TAIL := "pam_kiran_authentication.so doauth"

  const WAY_LINE := "auth " + (WAY + (" " + TAIL))
  const FACTOR_LINE := "auth " + (FACTOR + (" " + TAIL))

  function Sample(mark: string): string {
    (WAY_LINE + "\n") + (mark + (FACTOR_LINE + "\n"))
  }

  /** Where the multi-factor line stands in it. */
  function FactorAt(mark: string): nat {
    |WAY_LINE| + 1 + |mark|
  }

  // ------------------------------------------------------------------- the lines are matched

  const SERVICE_NAME := "pam_kiran_authentication"
  const TAIL_PATTERN := "pam_kiran_authentication?so~doauth"

  lemma SoDoauthMatches()
    ensures Matches("?" + ("so" + ("~" + "doauth")), "." + ("so" + (" " + "doauth")))
  {
    var p, w := "so" + ("~" + "doauth"), "so" + (" " + "doauth");
    PlainIsItself("doauth");
    BlanksThen("doauth", 1, "doauth");
    assert Blanks(1) == " ";
    PlainWord("so", "~" + "doauth", " " + "doauth");
    assert ("?" + p)[1..] == p && ("." + w)[1..] == w;
  }

  lemma ServiceNameIsPlain()
    ensures AllPlain(SERVICE_NAME)
  {
  }

  lemma TailInParts()
    ensures SERVICE_NAME + ("?" + ("so" + ("~" + "doauth"))) == TAIL_PATTERN
    ensures SERVICE_NAME + ("." + ("so" + (" " + "doauth"))) == TAIL
  {
  }

  lemma TailMatches()
    ensures Matches(TAIL_PATTERN, TAIL)
  {
    SoDoauthMatches();
    ServiceNameIsPlain();
    TailInParts();
    hide Matches, AllPlain, TAIL_PATTERN, TAIL, SERVICE_NAME;
    PlainWord(SERVICE_NAME, "?" + ("so" + ("~" + "doauth")), "." + ("so" + (" " + "doauth")));
  }

  lemma PlainBoth(a: string, b: string)
    requires AllPlain(a) && AllPlain(b)
    ensures AllPlain(a + b)
  {
  }

  lemma WayStartIsPlain()
    ensures AllPlain(WAY_START)
  {
  }

  lemma WayEndIsPlain()
    ensures AllPlain(WAY_END)
  {
  }

  lemma WayIsPlain()
    ensures AllPlain(WAY)
  {
    WayStartIsPlain();
    WayEndIsPlain();
    hide AllPlain, WAY_START, WAY_END;
    PlainBoth(WAY_START, WAY_END);
  }

  lemma FactorIsPlain()
    ensures AllPlain(FACTOR)
  {
  }

  lemma AuthInFront(rest: string)
    ensures "auth~" + rest == "auth" + ("~" + rest)
  {
    assert "auth" + "~" == "auth~";
    Regroup("auth", "~", rest);
  }

  lemma PatternStarts()
    ensures "auth~[success=done ignore=2 " == "auth" + ("~" + WAY_START)
  {
    var t := "auth~[success=done ignore=2 ";
    AuthInFront(WAY_START);
    assert t[..5] == "auth~" && t[5..] == WAY_START;
    assert t == t[..5] + t[5..];
  }

  lemma FactorPatternStarts()
    ensures "auth~[success=2 default=bad]" == "auth" + ("~" + FACTOR)
  {
    var t := "auth~[success=2 default=bad]";
    AuthInFront(FACTOR);
    assert t[..5] == "auth~" && t[5..] == FACTOR;
    assert t == t[..5] + t[5..];
  }

  lemma DoauthIsTail()
    ensures DOAUTH == "~" + TAIL_PATTERN
  {
  }

  lemma PatternsInParts()
    ensures "auth" + ("~" + (WAY + ("~" + TAIL_PATTERN))) == MULTI_WAY
    ensures "auth" + ("~" + (FACTOR + ("~" + TAIL_PATTERN))) == MULTI_FACTOR
  {
    PatternStarts();
    FactorPatternStarts();
    DoauthIsTail();
    assert WAY_END == "default=bad authinfo_unavail=die]";
    hide WAY_START, WAY_END, FACTOR, TAIL_PATTERN, DOAUTH;
    var tail := "~" + TAIL_PATTERN;
    Regroup("auth" + ("~" + WAY_START), WAY_END, tail);
    Regroup("auth", "~" + WAY_START, WAY_END + tail);
    Regroup("~", WAY_START, WAY_END + tail);
    Regroup(WAY_START, WAY_END, tail);
    Regroup("auth", "~" + FACTOR, tail);
    Regroup("~", FACTOR, tail);
  }

  lemma LineInParts(middle: string)
    ensures "auth" + (Blanks(1) + (middle + (Blanks(1) + TAIL))) == "auth " + (middle + (" " + TAIL))
  {
    assert Blanks(1) == " ";
    assert "auth" + (" " + (middle + (" " + TAIL))) == ("auth" + " ") + (middle + (" " + TAIL));
  }

  lemma LinesAreWords()
    ensures Matches(MULTI_WAY, WAY_LINE) && Matches(MULTI_FACTOR, FACTOR_LINE)
  {
    TailMatches();
    WayIsPlain();
    FactorIsPlain();
    FirstWordsArePlain();
    PatternsInParts();
    LineInParts(WAY);
    LineInParts(FACTOR);
    hide Matches, AllPlain, Blanks, MULTI_WAY, MULTI_FACTOR, TAIL, TAIL_PATTERN, WAY, FACTOR;
    ThreeWords("auth", 1, WAY, 1, TAIL_PATTERN, TAIL);
    ThreeWords("auth", 1, FACTOR, 1, TAIL_PATTERN, TAIL);
  }

  // ------------------------------------------------------------- nothing else can be matched

  /** No "auth " starts at k, whatever follows c. */
  ghost predicate NoAuthAt(c: string, k: nat) {
    k + 1 < |c| && (c[k + 1] != 'u' || (k + 4 < |c| && c[k + 4] != ' '))
  }

  ghost predicate AuthFree(c: string, from: nat) {
    forall k :: from <= k < |c| && c[k] == 'a' ==> NoAuthAt(c, k)
  }

  lemma AuthFreeBoth(a: string, b: string, from: nat)
    requires AuthFree(a, from) && from <= |a| && AuthFree(b, 0)
    ensures AuthFree(a + b, from)
  {
    var c := a + b;
    forall k | from <= k < |c| && c[k] == 'a' ensures NoAuthAt(c, k) {
      assert if k < |a| then NoAuthAt(a, k) else NoAuthAt(b, k - |a|);
    }
  }

  lemma WayIsAuthFree()
    ensures AuthFree(WAY_START, 0) && AuthFree(WAY_END, 0)
  {
  }

  lemma FactorIsAuthFree()
    ensures AuthFree(FACTOR, 0) && AuthFree("auth ", 1) && AuthFree(" ", 0)
  {
  }

  lemma TailIsAuthFree()
    ensures AuthFree(TAIL + "\n", 0)
  {
    var c := TAIL + "\n";
    forall k | 0 <= k < |c| && c[k] == 'a' ensures NoAuthAt(c, k) {
      assert k == 1 || k == 7 || k == 10 || k == 19 || k == 30;
    }
  }

  lemma LineIsAuthFree(middle: string)
    requires AuthFree(middle, 0)
    ensures AuthFree("auth " + (middle + (" " + TAIL)) + "\n", 1)
  {
    FactorIsAuthFree();
    TailIsAuthFree();
    hide AuthFree, TAIL;
    AuthFreeBoth(" ", TAIL + "\n", 0);
    AuthFreeBoth(middle, " " + (TAIL + "\n"), 0);
    AuthFreeBoth("auth ", middle + (" " + (TAIL + "\n")), 1);
    assert "auth " + (middle + (" " + (TAIL + "\n"))) == "auth " + (middle + (" " + TAIL)) + "\n";
  }

  lemma LinesAreAuthFree()
    ensures AuthFree(WAY_LINE + "\n", 1) && AuthFree(FACTOR_LINE + "\n", 1)
  {
    WayIsAuthFree();
    FactorIsAuthFree();
    hide AuthFree, TAIL, WAY_START, WAY_END;
    AuthFreeBoth(WAY_START, WAY_END, 0);
    LineIsAuthFree(WAY);
    LineIsAuthFree(FACTOR);
  }

  // ------------------------------------------------------------------------- the sample text

  lemma StandsMeans(s: string, x: nat)
    requires Stands("auth ", s, x)
    ensures s[x] == 'a' && s[x + 1] == 'u' && s[x + 4] == ' '
  {
    assert s[x..x + 5][0] == 'a' && s[x..x + 5][1] == 'u' && s[x..x + 5][4] == ' ';
  }

  lemma NoAuthStands(c: string, from: nat, z: string, x: nat)
    requires AuthFree(c, from) && from <= x < |c|
    ensures !Stands("auth ", c + z, x)
  {
    assert c[x] == 'a' ==> NoAuthAt(c, x);
    if Stands("auth ", c + z, x) {
      StandsMeans(c + z, x);
    }
  }

  /** "auth " stands nowhere but at the start of the two lines. */
  lemma AuthStandsTwice(mark: string, x: nat)
    requires 'a' !in mark && Stands("auth ", Sample(mark), x)
    ensures x == 0 || x == FactorAt(mark)
  {
    LinesAreAuthFree();
    var first, second := WAY_LINE + "\n", FACTOR_LINE + "\n";
    hide AuthFree, WAY_LINE, FACTOR_LINE;
    assert second + "" == second;
    StandsMeans(Sample(mark), x);
    if 0 < x < |first| {
      NoAuthStands(first, 1, mark + second, x);
    } else if x > |first| + |mark| {
      assert Sample(mark) == first + mark + second;
      StandsBehindOnly(first + mark, second, x);
      NoAuthStands(second, 1, "", x - |first + mark|);
    } else if x > 0 && x < |first| + |mark| {
      InTheMiddle(first, mark, second, x);
    }
  }

  lemma InTheMiddle(first: string, mark: string, second: string, x: nat)
    requires |first| <= x < |first| + |mark|
    ensures (first + (mark + second))[x] in mark
  {
  }

  lemma StandsBehindOnly(before: string, s: string, x: nat)
    requires |before| <= x
    ensures Stands("auth ", before + s, x) <==> Stands("auth ", s, x - |before|)
  {
    if x + 5 <= |before + s| {
      assert (before + s)[x..x + 5] == s[x - |before|..x - |before| + 5];
    }
  }

  lemma FoundStartsWithAuth(p: string, s: string, x: nat)
    requires WellSpaced(p) && |p| > 5 && (forall m :: 0 <= m < 5 ==> p[m] == "auth~"[m]) && Found(p, s, x)
    ensures Stands("auth ", s, x)
  {
    var w := s[x..MatchEnd(p, s, x)];
    GreedyIsExact(p, s, x, MatchEnd(p, s, x));
    StartsWithAuth(p, w);
    assert s[x..x + 5] == w[..5];
  }

  /** Behind "auth " and some plain text, the next character is the pattern's. */
  lemma NextCharacter(c: string, p: string, s: string, x: nat)
    requires AllPlain(c) && c != "" && c[0] != ' ' && p != "" && IsPlain(p[0])
    requires Stands("auth " + c, s, x) && Found("auth" + ("~" + (c + p)), s, x)
    ensures x + 5 + |c| < |s| && s[x + 5 + |c|] == p[0]
  {
    var head := "auth " + c;
    assert s[x..x + |head|][4] == ' ' && s[x..x + |head|][5] == c[0];
    FirstWordsArePlain();
    AfterPlain("auth", "~" + (c + p), s, x);
    assert ("~" + (c + p))[1..] == c + p;
    assert SkipBlanks(s, x + 4) == x + 5;
    AfterPlain(c, p, s, x + 5);
  }

  lemma SuccessIsPlain()
    ensures AllPlain("[success=") && "[success=" + "2 default=bad]" == FACTOR
    ensures "[success=" + "done ignore=2 " == WAY_START
  {
  }

  lemma NeitherIsTheOther(s: string, x: nat)
    requires Found(MULTI_WAY, s, x) && Stands("auth [success=", s, x)
    ensures !Found(MULTI_FACTOR, s, x)
  {
    SuccessIsPlain();
    PatternsInParts();
    assert "auth " + "[success=" == "auth [success=";
    hide AllPlain, Found, WAY_START, WAY_END, FACTOR, MULTI_WAY, MULTI_FACTOR, TAIL_PATTERN, Stands;
    var tail := "~" + TAIL_PATTERN;
    Regroup(WAY_START, WAY_END, tail);
    Regroup("[success=", "done ignore=2 ", WAY_END + tail);
    Regroup("[success=", "2 default=bad]", tail);
    CharacterAfter("[success=", "done ignore=2 ", WAY_END + tail, s, x);
    if Found(MULTI_FACTOR, s, x) {
      CharacterAfter("[success=", "2 default=bad]", tail, s, x);
    }
  }

  lemma CharacterAfter(c: string, p: string, rest: string, s: string, x: nat)
    requires AllPlain(c) && c != "" && c[0] != ' ' && p != "" && IsPlain(p[0])
    requires Stands("auth " + c, s, x) && Found("auth" + ("~" + (c + (p + rest))), s, x)
    ensures x + 5 + |c| < |s| && s[x + 5 + |c|] == p[0]
  {
    hide AllPlain, Found, Stands;
    NextCharacter(c, p + rest, s, x);
  }

  // ------------------------------------------------------------------- what the samples show

  lemma LinesStand(mark: string)
    ensures Stands(WAY_LINE, Sample(mark), 0) && Stands(FACTOR_LINE, Sample(mark), FactorAt(mark))
    ensures Stands("auth [success=", Sample(mark), 0) && Stands("auth [success=", Sample(mark), FactorAt(mark))
  {
    LinesBegin();
    var s := Sample(mark);
    hide WAY_LINE, FACTOR_LINE;
    assert s == WAY_LINE + ("\n" + (mark + (FACTOR_LINE + "\n")));
    assert s == (WAY_LINE + "\n" + mark) + (FACTOR_LINE + "\n");
    StandsInFront("auth [success=", WAY_LINE[14..], s, 0);
    StandsInFront("auth [success=", FACTOR_LINE[14..], s, FactorAt(mark));
  }

  lemma LinesBegin()
    ensures |WAY_LINE| > 14 && WAY_LINE == "auth [success=" + WAY_LINE[14..]
    ensures |FACTOR_LINE| > 14 && FACTOR_LINE == "auth [success=" + FACTOR_LINE[14..]
  {
    SuccessIsPlain();
    assert WAY_LINE == "auth " + ("[success=" + ("done ignore=2 " + WAY_END + (" " + TAIL)));
    assert FACTOR_LINE == "auth " + ("[success=" + ("2 default=bad]" + (" " + TAIL)));
  }

  lemma WordFound(p: string, w: string, s: string, x: nat)
    requires WellSpaced(p) && Matches(p, w) && Stands(w, s, x)
    ensures Found(p, s, x)
  {
    GreedyIsExact(p, s, x, x + |w|);
  }

  lemma UniqueIfOneOfTwo(p: string, s: string, x: nat, y: nat)
    requires Found(p, s, x) && !Found(p, s, y)
    requires forall z :: 0 <= z <= |s| && Found(p, s, z) ==> z == x || z == y
    ensures Unique(p, s, x)
  {
  }

  lemma HeadsOfPatterns()
    ensures |MULTI_WAY| > 5 && forall m :: 0 <= m < 5 ==> MULTI_WAY[m] == "auth~"[m]
    ensures |MULTI_FACTOR| > 5 && forall m :: 0 <= m < 5 ==> MULTI_FACTOR[m] == "auth~"[m]
  {
    MultiWayHead();
    EachAInFactorStart();
    var q := FACTOR_START + DOAUTH;
    assert forall k :: 0 <= k < 5 ==> q[k] == FACTOR_START[..5][k];
  }

  lemma BothFound(mark: string)
    ensures Found(MULTI_WAY, Sample(mark), 0) && Found(MULTI_FACTOR, Sample(mark), FactorAt(mark))
    ensures !Found(MULTI_FACTOR, Sample(mark), 0) && !Found(MULTI_WAY, Sample(mark), FactorAt(mark))
  {
    LinesAreWords();
    LinesStand(mark);
    MultiWayIsWellSpaced();
    MultiFactorIsWellSpaced();
    var s, n := Sample(mark), FactorAt(mark);
    hide WellSpaced, Matches, Found, Stands, Sample, FactorAt, MULTI_WAY, MULTI_FACTOR, WAY_LINE, FACTOR_LINE;
    WordFound(MULTI_WAY, WAY_LINE, s, 0);
    WordFound(MULTI_FACTOR, FACTOR_LINE, s, n);
    NeitherIsTheOther(s, 0);
    if Found(MULTI_WAY, s, n) {
      NeitherIsTheOther(s, n);
    }
  }

  lemma OnlyThere(p: string, mark: string, z: nat)
    requires WellSpaced(p) && |p| > 5 && (forall m :: 0 <= m < 5 ==> p[m] == "auth~"[m])
    requires 'a' !in mark && Found(p, Sample(mark), z)
    ensures z == 0 || z == FactorAt(mark)
  {
    FoundStartsWithAuth(p, Sample(mark), z);
    AuthStandsTwice(mark, z);
  }

  lemma MarkOfSample(mark: string)
    requires '\n' !in mark
    ensures FactorAt(mark) <= |Sample(mark)| && LineStart(Sample(mark), FactorAt(mark)) == |WAY_LINE| + 1
    ensures Mark(Sample(mark), 0) == "" && Mark(Sample(mark), FactorAt(mark)) == mark
  {
    hide WAY_LINE, FACTOR_LINE;
    var s, n := Sample(mark), |WAY_LINE| + 1;
    assert s[n - 1] == '\n' && s[n..FactorAt(mark)] == mark;
    LineStartIs(s, n, FactorAt(mark));
  }

  lemma FoundOnlyThere(mark: string, z: nat)
    requires 'a' !in mark
    ensures Found(MULTI_WAY, Sample(mark), z) || Found(MULTI_FACTOR, Sample(mark), z) ==> z == 0 || z == FactorAt(mark)
  {
    MultiWayIsWellSpaced();
    MultiFactorIsWellSpaced();
    HeadsOfPatterns();
    hide WellSpaced, Found, Sample, FactorAt, MULTI_WAY, MULTI_FACTOR;
    if Found(MULTI_WAY, Sample(mark), z) {
      OnlyThere(MULTI_WAY, mark, z);
    } else if Found(MULTI_FACTOR, Sample(mark), z) {
      OnlyThere(MULTI_FACTOR, mark, z);
    }
  }

  lemma EachOnce(mark: string)
    requires 'a' !in mark
    ensures Unique(MULTI_WAY, Sample(mark), 0) && Unique(MULTI_FACTOR, Sample(mark), FactorAt(mark))
  {
    hide *;
    BothFound(mark);
    var s, n := Sample(mark), FactorAt(mark);
    forall z: nat | z <= |s| ensures Found(MULTI_WAY, s, z) || Found(MULTI_FACTOR, s, z) ==> z == 0 || z == n {
      FoundOnlyThere(mark, z);
    }
    UniqueIfOneOfTwo(MULTI_WAY, s, 0, n);
    UniqueIfOneOfTwo(MULTI_FACTOR, s, n, 0);
  }

  lemma OneOfEachIf(s: string, i: nat, j: nat)
    requires Unique(MULTI_WAY, s, i) && Unique(MULTI_FACTOR, s, j) && i <= |s| && j <= |s|
    requires LineStart(s, i) != LineStart(s, j)
    ensures OneOfEach(s, i, j)
  {
  }

  lemma StartOfText(s: string)
    ensures LineStart(s, 0) == 0
  {
  }

  /** There are texts with one match of each pattern, with every mark of this kind. */
  lemma SampleIsOneOfEach(mark: string)
    requires 'a' !in mark && '\n' !in mark
    ensures OneOfEach(Sample(mark), 0, FactorAt(mark))
    ensures Mark(Sample(mark), 0) == "" && Mark(Sample(mark), FactorAt(mark)) == mark
  {
    hide *;
    EachOnce(mark);
    MarkOfSample(mark);
    StartOfText(Sample(mark));
    OneOfEachIf(Sample(mark), 0, FactorAt(mark));
  }

  lemma MarkBytesOfSample(mark: string)
    requires 'a' !in mark && '\n' !in mark
    ensures FactorAt(mark) <= |Sample(mark)| && MarkBytes(Sample(mark), 0, FactorAt(mark)) == |Encoded(mark)|
  {
    MarkOfSample(mark);
    HashIsOneByte();
  }

  lemma SampleIsCovered(mark: string)
    requires 'a' !in mark && '\n' !in mark
    ensures var s := Sample(mark);
      EnableKiran(s).Rewritten? && (WritesExactly(s, EnableKiran(s).text) <==> |Encoded(mark)| <= 1)
  {
    hide *;
    SampleIsOneOfEach(mark);
    MarkBytesOfSample(mark);
    CoveredIfMarksAreShort(Sample(mark), 0, FactorAt(mark));
  }

  lemma CoveredIfMarksAreShort(s: string, i: nat, j: nat)
    requires OneOfEach(s, i, j)
    ensures EnableKiran(s).Rewritten? && (WritesExactly(s, EnableKiran(s).text) <==> MarkBytes(s, i, j) <= 1)
  {
    var on, off := EnableThenDisable(s, i, j);
  }

  lemma TwoMarks()
    ensures 'a' !in "# " && '\n' !in "# " && 'a' !in ['\U{E9}'] && '\n' !in ['\U{E9}']
  {
  }

  /** Texts that enabling rewrites and then does not cover: the multi-factor line is commented
      with '#' and a blank, or marked with one character of two bytes. */
  lemma NotCovered(mark: string)
    requires mark == "# " || mark == ['\U{E9}']
    ensures var s := Sample(mark);
      EnableKiran(s).Rewritten? && !WritesExactly(s, EnableKiran(s).text)
  {
    TwoMarks();
    TwoBytes();
    hide *;
    SampleIsCovered(mark);
  }

  lemma TwoBytes()
    ensures |Encoded("# ")| == 2 && |Encoded(['\U{E9}'])| == 2
  {
    assert "# "[1..] == " " && " "[1..] == "";
    assert Encoded("# ") == Utf8('#') + (Utf8(' ') + Encoded(""));
    assert ['\U{E9}'][1..] == "";
    assert Encoded(['\U{E9}']) == Utf8('\U{E9}') + Encoded("");
  }

  // ------------------------------------------------------------------------------- letters

  ghost predicate Printable(s: string) {
    forall k :: 0 <= k < |s| ==> '\n' <= s[k] <= '~'
  }

  lemma PrintableBoth(a: string, b: string)
    requires Printable(a) && Printable(b)
    ensures Printable(a + b)
  {
  }

  lemma WayIsPrintable()
    ensures Printable(WAY_START) && Printable(WAY_END)
  {
  }

  lemma RestIsPrintable()
    ensures Printable(FACTOR) && Printable("auth ") && Printable(" ") && Printable("\n")
  {
  }

  lemma TailIsPrintable()
    ensures Printable(TAIL)
  {
  }

  lemma LineIsPrintable(middle: string)
    requires Printable(middle)
    ensures Printable("auth " + (middle + (" " + TAIL)) + "\n")
  {
    RestIsPrintable();
    TailIsPrintable();
    hide Printable, TAIL;
    PrintableBoth(" ", TAIL);
    PrintableBoth(middle, " " + TAIL);
    PrintableBoth("auth ", middle + (" " + TAIL));
    PrintableBoth("auth " + (middle + (" " + TAIL)), "\n");
  }

  lemma SampleIsPrintable(mark: string)
    requires Printable(mark)
    ensures Printable(Sample(mark))
  {
    WayIsPrintable();
    RestIsPrintable();
    hide Printable, TAIL, FACTOR, WAY_START, WAY_END;
    PrintableBoth(WAY_START, WAY_END);
    LineIsPrintable(WAY);
    LineIsPrintable(FACTOR);
    PrintableBoth(mark, FACTOR_LINE + "\n");
    PrintableBoth(WAY_LINE + "\n", mark + (FACTOR_LINE + "\n"));
  }

  lemma PrintableIsLegible(s: string)
    requires Printable(s)
    ensures Legible(s)
  {
  }

  lemma SampleLetters(mark: string)
    requires Printable(mark)
    ensures Legible(Sample(mark))
  {
    SampleIsPrintable(mark);
    hide Printable, Legible, Sample;
    PrintableIsLegible(Sample(mark));
  }
}
