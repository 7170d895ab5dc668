/** Switching multi-factor authentication on and off: both files together
    (enableMultiFactorAuthState and disableMultiFactorAuthState in
    src/daemon/account/manager.cpp). */
module PamToggle {
  import opened Patterns
  import opened Rewriting
  import opened TextEncoding
  import opened SystemAuth
  import opened SystemAuthTexts
  import opened KiranAuth
  import opened KiranFailing
  import opened KiranTexts

  datatype Reply = Done | AlreadySo | Error

  /** How much of what is written gets to the file. */
  datatype Sent = All | Only(n: nat)

  /** Which calls fail: the request to allow the USB key, and for each file opening it, going
      back to its start, and writing. Nobody looks at the results of the last two. */
  datatype Faults = Faults(
    ukey: bool,
    systemOpen: bool, systemResize: bool, systemSent: Sent,
    kiranOpen: bool, kiranSeek: bool, kiranSent: Sent)

  const NO_FAULTS := Faults(false, false, false, All, false, false, All)

  /** The contents of the two files. */
  datatype Files = Files(systemAuth: seq<byte>, kiranAuth: seq<byte>)

  function SentOf(bytes: seq<byte>, sent: Sent): seq<byte> {
    match sent
    case All => bytes
    case Only(n) => if n < |bytes| then bytes[..n] else bytes
  }

  /** The first file after resize(0) and write. If it is not cut, writing goes on where reading
      ended. */
  function Replaced(file: seq<byte>, bytes: seq<byte>, faults: Faults): seq<byte> {
    var written := SentOf(bytes, faults.systemSent);
    if faults.systemResize then file + written else written
  }

  /** The second file after seek(0) and write, likewise. */
  function Overwritten(file: seq<byte>, bytes: seq<byte>, faults: Faults): seq<byte> {
    var written := SentOf(bytes, faults.kiranSent);
    if faults.kiranSeek then file + written else WrittenOver(file, written)
  }

  /** One file after the other, given what each rewriting comes to: the second is only tried
      after the first has been written. */
  function Both(f: Files, fails: bool, system: Outcome, kiran: Outcome, faults: Faults): (Files, Reply) {
    if fails || system.Failed? then (f, Error)
    else if system.Skipped? then (f, AlreadySo)
    else Second(f.(systemAuth := Replaced(f.systemAuth, Encoded(system.text), faults)), kiran, faults)
  }

  function Second(half: Files, kiran: Outcome, faults: Faults): (Files, Reply) {
    if faults.kiranOpen || !kiran.Rewritten? then (half, Error)
    else (half.(kiranAuth := Overwritten(half.kiranAuth, Encoded(kiran.text), faults)), Done)
  }

  function Enabling(read: Reader, f: Files, faults: Faults): (Files, Reply) {
    Both(f, faults.ukey || faults.systemOpen, EnableSystem(SYSTEM_AUTH, read(f.systemAuth)),
         EnableKiran(read(f.kiranAuth)), faults)
  }

  function Disabling(read: Reader, f: Files, faults: Faults): (Files, Reply) {
    Both(f, faults.systemOpen, DisableSystem(SYSTEM_AUTH, read(f.systemAuth)),
         DisableKiran(read(f.kiranAuth)), faults)
  }

  // -------------------------------------------------------------------- what decides, in the texts

  /** The texts of all matches of an anchor agree. */
  ghost predicate EvenAnchors(t: string) {
    && Uniform(AUTH_ANCHOR, t, FirstText(AUTH_ANCHOR, t))
    && Uniform(ACCOUNT_ANCHOR, t, FirstText(ACCOUNT_ANCHOR, t))
  }

  /** A system-auth text that enabling rewrites: no line is in it, both anchors are. */
  ghost predicate CanBeEnabled(t: string) {
    && !Contains(AUTH_INCLUDE, t) && !Contains(ACCOUNT_INCLUDE, t)
    && Contains(AUTH_ANCHOR, t) && Contains(ACCOUNT_ANCHOR, t)
  }

  ghost predicate CanBeDisabled(t: string) {
    Contains(AUTH_INCLUDE, t) && Contains(ACCOUNT_INCLUDE, t)
  }

  /** In the kiran-authentication-service text a line is missing, or is lost: see
      EnableKiranFails and DisableKiranFails. */
  ghost predicate CannotEnableKiran(s: string) {
    !Contains(MULTI_WAY, s) || forall i :: 0 <= i < |KiranPieces(s)| ==> !Contains(MULTI_FACTOR, KiranPieces(s)[i])
  }

  ghost predicate CannotDisableKiran(s: string) {
    !Contains(MULTI_WAY, s) || forall i :: 0 <= i < |KiranPieces(s)| ==>
      !Contains(MULTI_FACTOR, KiranPieces(s)[i] + if i == |KiranPieces(s)| - 1 then "" else "auth")
  }

  lemma KiranOutcomes(s: string)
    ensures EnableKiran(s) == Failed <==> CannotEnableKiran(s)
    ensures DisableKiran(s) == Failed <==> CannotDisableKiran(s)
    ensures !EnableKiran(s).Skipped? && !DisableKiran(s).Skipped?
  {
    hide EnableKiran, DisableKiran, Contains, KiranPieces, MULTI_WAY, MULTI_FACTOR;
    EnableKiranFails(s);
    DisableKiranFails(s);
  }

  lemma SecondFails(half: Files, s: string, faults: Faults)
    ensures Second(half, EnableKiran(s), faults).1 == Error <==> faults.kiranOpen || CannotEnableKiran(s)
    ensures Second(half, DisableKiran(s), faults).1 == Error <==> faults.kiranOpen || CannotDisableKiran(s)
  {
    hide EnableKiran, DisableKiran, CannotEnableKiran, CannotDisableKiran, Overwritten;
    KiranOutcomes(s);
  }

  /** What the two rewritings of the first file come to on t and on what enabling makes of it. */
  lemma SystemOutcomes(t: string)
    requires CanBeEnabled(t)
    ensures var on, level := WithLines(SYSTEM_AUTH, t), Leveled(SYSTEM_AUTH, t);
      && on != t
      && EnableSystem(SYSTEM_AUTH, t) == Rewritten(on) && EnableSystem(SYSTEM_AUTH, on) == Skipped
      && DisableSystem(SYSTEM_AUTH, on) == Rewritten(level)
      && EnableSystem(SYSTEM_AUTH, level) == Rewritten(on) && DisableSystem(SYSTEM_AUTH, level) == Skipped
    ensures Leveled(SYSTEM_AUTH, t) == t <==> EvenAnchors(t)
  {
    hide Contains, Rewrite, Uniform, WithLines, Leveled, EnableSystem, DisableSystem;
    SystemAuthRoundTrip(t);
  }

  lemma SystemLegible(t: string)
    requires Legible(t)
    ensures Legible(WithLines(SYSTEM_AUTH, t)) && Legible(Leveled(SYSTEM_AUTH, t))
  {
    hide WithLines, Leveled;
    SystemLetters(t, '\0');
    SystemLetters(t, '\U{FEFF}');
  }

  /** The file holds this text. */
  ghost predicate Holds(read: Reader, file: seq<byte>, t: string) {
    Legible(t) && ReadsUtf8(read) && file == Encoded(t)
  }

  lemma HeldIsRead(read: Reader, file: seq<byte>, t: string)
    requires Holds(read, file, t)
    ensures read(file) == t
  {
  }

  lemma HoldsEncoded(read: Reader, file: seq<byte>, t: string, u: string)
    requires Holds(read, file, t) && Legible(u)
    ensures Holds(read, Encoded(u), u) && read(Encoded(u)) == u && (Encoded(u) == file <==> u == t)
  {
    EncodedIsInjective(read, t, u);
  }

  // ---------------------------------------------------------------------------- the replies

  /** Every reply of enabling under its exact condition, for all files, however they read, and
      all failing calls; and what it leaves in the files. */
  lemma EnablingReplies(read: Reader, f: Files, faults: Faults)
    ensures var t, s := read(f.systemAuth), read(f.kiranAuth);
      var (g, reply) := Enabling(read, f, faults);
      var early := faults.ukey || faults.systemOpen;
      var hasLine := Contains(AUTH_INCLUDE, t) || Contains(ACCOUNT_INCLUDE, t);
      && (reply == AlreadySo <==> !early && hasLine)
      && (reply == Error <==>
            || early
            || (!hasLine && !(Contains(AUTH_ANCHOR, t) && Contains(ACCOUNT_ANCHOR, t)))
            || (CanBeEnabled(t) && (faults.kiranOpen || CannotEnableKiran(s))))
      && (reply == Done <==> !early && CanBeEnabled(t) && !faults.kiranOpen && !CannotEnableKiran(s))
      && (early || !CanBeEnabled(t) ==> g == f)
      && (!early && CanBeEnabled(t) ==>
            && g.systemAuth == Replaced(f.systemAuth, Encoded(WithLines(SYSTEM_AUTH, t)), faults)
            && (reply == Error ==> g.kiranAuth == f.kiranAuth))
      && (reply == Done ==>
            && EnableKiran(s).Rewritten?
            && g.kiranAuth == Overwritten(f.kiranAuth, Encoded(EnableKiran(s).text), faults))
  {
    var t, s := read(f.systemAuth), read(f.kiranAuth);
    hide Contains, EnableSystem, DisableSystem, EnableKiran, DisableKiran, Leveled, WithLines, CannotEnableKiran;
    hide CannotDisableKiran, Replaced, Overwritten, Encoded;
    SystemAuthRoundTrip(t);
    KiranOutcomes(s);
  }

  /** The same for disabling, which finds nothing to do unless both lines are there. */
  lemma DisablingReplies(read: Reader, f: Files, faults: Faults)
    ensures var t, s := read(f.systemAuth), read(f.kiranAuth);
      var (g, reply) := Disabling(read, f, faults);
      && (reply == AlreadySo <==> !faults.systemOpen && !CanBeDisabled(t))
      && (reply == Error <==>
            faults.systemOpen || (CanBeDisabled(t) && (faults.kiranOpen || CannotDisableKiran(s))))
      && (reply == Done <==>
            !faults.systemOpen && CanBeDisabled(t) && !faults.kiranOpen && !CannotDisableKiran(s))
      && (faults.systemOpen || !CanBeDisabled(t) ==> g == f)
      && (reply == Error ==> g.kiranAuth == f.kiranAuth)
      && (!faults.systemOpen && CanBeDisabled(t) ==>
            && DisableSystem(SYSTEM_AUTH, t).Rewritten?
            && g.systemAuth == Replaced(f.systemAuth, Encoded(DisableSystem(SYSTEM_AUTH, t).text), faults))
      && (reply == Done ==>
            && DisableKiran(s).Rewritten?
            && g.kiranAuth == Overwritten(f.kiranAuth, Encoded(DisableKiran(s).text), faults))
  {
    var t, s := read(f.systemAuth), read(f.kiranAuth);
    hide Contains, Rewrite, EnableKiran, DisableKiran, CannotEnableKiran, CannotDisableKiran, Replaced, Overwritten;
    hide Encoded;
    KiranOutcomes(s);
  }

  /** An auth anchor is missing: an error, and nothing is touched. */
  lemma MissingAnchorIsAnError(read: Reader, f: Files, faults: Faults)
    requires ReadsUtf8(read) && f.systemAuth == Encoded(ACCOUNT)
    ensures Enabling(read, f, faults) == (f, Error)
  {
    hide *;
    AccountReads(read);
    TheseHoldNoK();
    AccountHoldsNoF();
    NoIncludes(ACCOUNT);
    AnchorsAreWellSpaced();
    NoLetterNoMatch(AUTH_ANCHOR, ACCOUNT, 'f');
    CannotWithoutAnchor(ACCOUNT);
    EnablingReplies(read, f, faults);
  }

  lemma AccountReads(read: Reader)
    requires ReadsUtf8(read)
    ensures read(Encoded(ACCOUNT)) == ACCOUNT
  {
    AccountIsLegible();
    assert Legible(ACCOUNT);
    hide ACCOUNT, Encoded;
  }

  lemma CannotWithoutAnchor(t: string)
    requires !Contains(AUTH_ANCHOR, t)
    ensures !CanBeEnabled(t)
  {
  }

  lemma AccountHoldsNoF()
    ensures 'f' !in ACCOUNT && 'f' in AUTH_ANCHOR
  {
    assert AUTH_ANCHOR[7] == 'f';
  }

  // ------------------------------------------------------------------------- there and back

  /** The second file, there and back, if its marks take at most one byte. */
  lemma KiranOnAndOff(read: Reader, file: seq<byte>, s: string, k: nat, l: nat) returns (on: string, off: string)
    requires Holds(read, file, s) && OneOfEach(s, k, l) && MarkBytes(s, k, l) <= 1
    ensures EnableKiran(s) == Rewritten(on) && Overwritten(file, Encoded(on), NO_FAULTS) == Encoded(on)
    ensures DisableKiran(read(Encoded(on))) == Rewritten(off)
    ensures Overwritten(Encoded(on), Encoded(off), NO_FAULTS) == Encoded(off)
    ensures Encoded(off) == file <==> Mark(s, k) == "" && Mark(s, l) == "#"
  {
    hide OneOfEach, Mark, MarkBytes, Switched, MULTI_WAY, MULTI_FACTOR, Encoded, ReadsUtf8, WrittenOver;
    on, off := EnableThenDisable(s, k, l);
    SwitchedLetters(MULTI_WAY, MULTI_FACTOR, s, "#", "", '\0');
    SwitchedLetters(MULTI_WAY, MULTI_FACTOR, s, "#", "", '\U{FEFF}');
    SwitchedLetters(MULTI_WAY, MULTI_FACTOR, on, "", "#", '\0');
    SwitchedLetters(MULTI_WAY, MULTI_FACTOR, on, "", "#", '\U{FEFF}');
    HoldsEncoded(read, file, s, on);
    HoldsEncoded(read, file, s, off);
  }

  /** With marks of at most one byte in all in front of the two lines of the second file,
      switching on and off again succeeds. It gives both files back exactly if the anchors of
      a kind agree, the multi-way line is plain and the multi-factor line is commented with one
      '#'. Switching on twice is switching on once. */
  lemma SwitchingOnAndOff(read: Reader, f: Files, t: string, s: string, k: nat, l: nat)
    returns (on: Files, off: Files)
    requires Holds(read, f.systemAuth, t) && Holds(read, f.kiranAuth, s)
    requires CanBeEnabled(t) && OneOfEach(s, k, l) && MarkBytes(s, k, l) <= 1
    ensures Enabling(read, f, NO_FAULTS) == (on, Done)
    ensures Disabling(read, on, NO_FAULTS) == (off, Done)
    ensures off == f <==> EvenAnchors(t) && Mark(s, k) == "" && Mark(s, l) == "#"
    ensures Enabling(read, on, NO_FAULTS) == (on, AlreadySo)
  {
    hide Holds, CanBeEnabled, EvenAnchors, OneOfEach, Mark, MarkBytes, EnableSystem, DisableSystem, EnableKiran;
    hide DisableKiran, Leveled, WithLines, SYSTEM_AUTH, Legible, Encoded, Overwritten;
    HeldIsRead(read, f.systemAuth, t);
    HeldIsRead(read, f.kiranAuth, s);
    SystemOutcomes(t);
    HoldsLegible(read, f.systemAuth, t);
    SystemLegible(t);
    HoldsEncoded(read, f.systemAuth, t, WithLines(SYSTEM_AUTH, t));
    HoldsEncoded(read, f.systemAuth, t, Leveled(SYSTEM_AUTH, t));
    var kiran, kiranOff := KiranOnAndOff(read, f.kiranAuth, s, k, l);
    on := Files(Encoded(WithLines(SYSTEM_AUTH, t)), Encoded(kiran));
    off := Files(Encoded(Leveled(SYSTEM_AUTH, t)), Encoded(kiranOff));
  }

  lemma HoldsLegible(read: Reader, file: seq<byte>, t: string)
    requires Holds(read, file, t)
    ensures Legible(t)
  {
  }

  // -------------------------------------------------------------------- half a switch

  /** An error is reported and yet the files have changed. */
  ghost predicate Halfway(f: Files, outcome: (Files, Reply)) {
    outcome.1 == Error && outcome.0 != f
  }

  /** For all files, however they read, and all failing calls: enabling ends halfway exactly if
      the first file can be rewritten, what gets written to it changes it, and the second
      cannot be opened or is missing a line. The second is then as it was. */
  lemma EnablingHalfway(read: Reader, f: Files, faults: Faults)
    ensures var t, s := read(f.systemAuth), read(f.kiranAuth);
      var half := f.(systemAuth := Replaced(f.systemAuth, Encoded(WithLines(SYSTEM_AUTH, t)), faults));
      && (Halfway(f, Enabling(read, f, faults)) <==>
            && !faults.ukey && !faults.systemOpen && CanBeEnabled(t)
            && half != f && (faults.kiranOpen || CannotEnableKiran(s)))
      && (Halfway(f, Enabling(read, f, faults)) ==> Enabling(read, f, faults).0 == half)
  {
    var t, s := read(f.systemAuth), read(f.kiranAuth);
    hide Contains, EnableSystem, DisableSystem, EnableKiran, DisableKiran, Leveled, WithLines, CannotEnableKiran;
    hide CannotDisableKiran, Replaced, Overwritten, Encoded;
    SystemAuthRoundTrip(t);
    KiranOutcomes(s);
  }

  /** Disabling likewise. */
  lemma DisablingHalfway(read: Reader, f: Files, faults: Faults)
    ensures var t, s := read(f.systemAuth), read(f.kiranAuth);
      var u := Rewrite([Rule(ACCOUNT_INCLUDE, "")], Rewrite([Rule(AUTH_INCLUDE, "")], t));
      var half := f.(systemAuth := Replaced(f.systemAuth, Encoded(u), faults));
      && (Halfway(f, Disabling(read, f, faults)) <==>
            && !faults.systemOpen && CanBeDisabled(t)
            && half != f && (faults.kiranOpen || CannotDisableKiran(s)))
      && (Halfway(f, Disabling(read, f, faults)) ==> Disabling(read, f, faults).0 == half)
  {
    var t, s := read(f.systemAuth), read(f.kiranAuth);
    hide Contains, Rewrite, EnableKiran, DisableKiran, CannotEnableKiran, CannotDisableKiran, Replaced, Overwritten;
    hide Encoded;
    KiranOutcomes(s);
  }

  /** Unless the writing itself goes wrong, it changes the file. */
  lemma WritingChanges(read: Reader, f: Files, t: string, faults: Faults)
    requires Holds(read, f.systemAuth, t) && !faults.systemResize && faults.systemSent == All
    ensures CanBeEnabled(t) ==> Replaced(f.systemAuth, Encoded(WithLines(SYSTEM_AUTH, t)), faults) != f.systemAuth
    ensures CanBeDisabled(t) ==>
      var u := Rewrite([Rule(ACCOUNT_INCLUDE, "")], Rewrite([Rule(AUTH_INCLUDE, "")], t));
      Replaced(f.systemAuth, Encoded(u), faults) != f.systemAuth
  {
    hide CanBeEnabled, WithLines, Leveled, Rewrite, Contains, Encoded, ReadsUtf8;
    if CanBeEnabled(t) {
      SystemOutcomes(t);
      SystemLegible(t);
      HoldsEncoded(read, f.systemAuth, t, WithLines(SYSTEM_AUTH, t));
    }
    if CanBeDisabled(t) {
      var u := Rewrite([Rule(ACCOUNT_INCLUDE, "")], Rewrite([Rule(AUTH_INCLUDE, "")], t));
      DisablingChanges(t);
      RemovalLetters(t, '\0');
      RemovalLetters(t, '\U{FEFF}');
      HoldsEncoded(read, f.systemAuth, t, u);
    }
  }

  lemma RemovalLetters(t: string, c: char)
    requires c !in t
    ensures c !in Rewrite([Rule(ACCOUNT_INCLUDE, "")], Rewrite([Rule(AUTH_INCLUDE, "")], t))
  {
    RewriteLetters([Rule(AUTH_INCLUDE, "")], t, c);
    RewriteLetters([Rule(ACCOUNT_INCLUDE, "")], Rewrite([Rule(AUTH_INCLUDE, "")], t), c);
  }

  /** No reply depends on how the writing goes: a file can be left cut or doubled, and Done be
      reported. */
  lemma WritingIsNotReported(read: Reader, f: Files, faults: Faults, others: Faults)
    requires faults.ukey == others.ukey && faults.systemOpen == others.systemOpen
    requires faults.kiranOpen == others.kiranOpen
    ensures Enabling(read, f, faults).1 == Enabling(read, f, others).1
    ensures Disabling(read, f, faults).1 == Disabling(read, f, others).1
    ensures Enabling(read, f, faults).1 == Done && faults.systemSent == Only(0) && !faults.systemResize ==>
              Enabling(read, f, faults).0.systemAuth == []
  {
    hide EnableSystem, DisableSystem, EnableKiran, DisableKiran, Encoded, Overwritten;
  }

  // ------------------------------------------------------------------ what the next call does

  lemma EnablingOnce(read: Reader, f: Files, t: string)
    requires read(f.systemAuth) == t
    ensures EnableSystem(SYSTEM_AUTH, t) == Skipped ==> Enabling(read, f, NO_FAULTS) == (f, AlreadySo)
    ensures EnableSystem(SYSTEM_AUTH, t).Rewritten? ==>
      Enabling(read, f, NO_FAULTS) ==
      Second(f.(systemAuth := Encoded(EnableSystem(SYSTEM_AUTH, t).text)), EnableKiran(read(f.kiranAuth)), NO_FAULTS)
  {
  }

  lemma DisablingOnce(read: Reader, f: Files, t: string)
    requires read(f.systemAuth) == t
    ensures DisableSystem(SYSTEM_AUTH, t) == Skipped ==> Disabling(read, f, NO_FAULTS) == (f, AlreadySo)
    ensures DisableSystem(SYSTEM_AUTH, t).Rewritten? ==>
      Disabling(read, f, NO_FAULTS) ==
      Second(f.(systemAuth := Encoded(DisableSystem(SYSTEM_AUTH, t).text)), DisableKiran(read(f.kiranAuth)), NO_FAULTS)
  {
  }

  /** Half enabled files stay so when asked again, with no error. Disabling takes the lines
      out again: the first file is as it was exactly if its anchors agree. It fails in turn,
      or goes on to rewrite a second file that was never enabled. */
  lemma AfterHalfEnabling(read: Reader, f: Files, t: string, faults: Faults)
    requires Holds(read, f.systemAuth, t) && !faults.systemResize && faults.systemSent == All
    requires Halfway(f, Enabling(read, f, faults))
    ensures var half := Enabling(read, f, faults).0;
      var back := f.(systemAuth := Encoded(Leveled(SYSTEM_AUTH, t)));
      && half == f.(systemAuth := Encoded(WithLines(SYSTEM_AUTH, t)))
      && Enabling(read, half, NO_FAULTS) == (half, AlreadySo)
      && Disabling(read, half, NO_FAULTS) == Second(back, DisableKiran(read(f.kiranAuth)), NO_FAULTS)
      && (Disabling(read, half, NO_FAULTS).1 == Error <==> CannotDisableKiran(read(f.kiranAuth)))
      && (back == f <==> EvenAnchors(t))
  {
    hide *;
    var half, level := Enabling(read, f, faults).0, Leveled(SYSTEM_AUTH, t);
    HeldIsRead(read, f.systemAuth, t);
    HoldsLegible(read, f.systemAuth, t);
    EnablingHalfway(read, f, faults);
    WrittenWhole(f.systemAuth, Encoded(WithLines(SYSTEM_AUTH, t)), faults);
    SystemOutcomes(t);
    SystemLegible(t);
    HoldsEncoded(read, f.systemAuth, t, WithLines(SYSTEM_AUTH, t));
    HoldsEncoded(read, f.systemAuth, t, level);
    EnablingOnce(read, half, WithLines(SYSTEM_AUTH, t));
    DisablingOnce(read, half, WithLines(SYSTEM_AUTH, t));
    SecondFails(f.(systemAuth := Encoded(level)), read(f.kiranAuth), NO_FAULTS);
    NoKiranFault();
  }

  lemma WrittenWhole(file: seq<byte>, bytes: seq<byte>, faults: Faults)
    requires !faults.systemResize && faults.systemSent == All
    ensures Replaced(file, bytes, faults) == bytes
  {
  }

  lemma NoKiranFault()
    ensures !NO_FAULTS.kiranOpen
  {
  }

  /** Files enabled from t and then half disabled are not disabled any further; enabling
      makes the first file what it was before. */
  lemma AfterHalfDisabling(read: Reader, t: string, kiran: seq<byte>, faults: Faults)
    requires Legible(t) && ReadsUtf8(read) && CanBeEnabled(t) && !faults.systemResize && faults.systemSent == All
    requires var f := Files(Encoded(WithLines(SYSTEM_AUTH, t)), kiran); Halfway(f, Disabling(read, f, faults))
    ensures var f := Files(Encoded(WithLines(SYSTEM_AUTH, t)), kiran);
      var half := Disabling(read, f, faults).0;
      && half == f.(systemAuth := Encoded(Leveled(SYSTEM_AUTH, t)))
      && Disabling(read, half, NO_FAULTS) == (half, AlreadySo)
      && Enabling(read, half, NO_FAULTS) == Second(f, EnableKiran(read(kiran)), NO_FAULTS)
      && (Enabling(read, half, NO_FAULTS).1 == Error <==> CannotEnableKiran(read(kiran)))
  {
    var on := WithLines(SYSTEM_AUTH, t);
    EncodedHolds(read, t);
    hide *;
    var f := Files(Encoded(on), kiran);
    var half, level := Disabling(read, f, faults).0, Leveled(SYSTEM_AUTH, t);
    SystemOutcomes(t);
    SystemLegible(t);
    HoldsEncoded(read, Encoded(t), t, on);
    HoldsEncoded(read, Encoded(t), t, level);
    DisablingHalfway(read, f, faults);
    DisabledText(on);
    WrittenWhole(f.systemAuth, Encoded(level), faults);
    EnablingOnce(read, half, level);
    DisablingOnce(read, half, level);
    SecondFails(f, read(kiran), NO_FAULTS);
    NoKiranFault();
  }

  lemma EncodedHolds(read: Reader, t: string)
    requires Legible(t) && ReadsUtf8(read)
    ensures Holds(read, Encoded(t), t)
  {
  }

  lemma DisabledText(t: string)
    ensures DisableSystem(SYSTEM_AUTH, t).Rewritten? ==>
      DisableSystem(SYSTEM_AUTH, t).text
      == Rewrite([Rule(ACCOUNT_INCLUDE, "")], Rewrite([Rule(AUTH_INCLUDE, "")], t))
  {
  }

  // --------------------------------------------------------------------------- it happens

  lemma EvenIsLegible()
    ensures Legible(EVEN)
  {
    assert forall k :: 0 <= k < |ONE_BLANK| ==> '\n' <= ONE_BLANK[k] <= '~';
    AccountIsLegible();
    hide ONE_BLANK, ACCOUNT;
  }

  lemma AccountIsLegible()
    ensures forall k :: 0 <= k < |ACCOUNT| ==> '\n' <= ACCOUNT[k] <= '~'
  {
  }

  lemma NothingInNothing(read: Reader)
    requires ReadsUtf8(read)
    ensures read([]) == "" && CannotEnableKiran("") && CannotDisableKiran("")
  {
    assert Encoded("") == [] && Legible("");
    if Contains(MULTI_WAY, "") {
      MultiWayStartsWithAuth("", FirstMatch(MULTI_WAY, "", 0));
    }
  }

  lemma EvenCanBeEnabled()
    ensures CanBeEnabled(EVEN)
  {
    EvenIsEnabled();
    SystemAuthRoundTrip(EVEN);
    hide EVEN, EnableSystem, DisableSystem, Contains, WithLines, Leveled, Uniform;
  }

  /** Files that are left half enabled: a second file with neither line in it. */
  lemma HalfEnablingHappens(read: Reader)
    requires ReadsUtf8(read)
    ensures var f := Files(Encoded(EVEN), []); Halfway(f, Enabling(read, f, NO_FAULTS))
  {
    EvenIsLegible();
    EncodedHolds(read, EVEN);
    hide *;
    var f := Files(Encoded(EVEN), []);
    EvenCanBeEnabled();
    NothingInNothing(read);
    HeldIsRead(read, f.systemAuth, EVEN);
    NoSystemFault();
    WritingChanges(read, f, EVEN, NO_FAULTS);
    EnablingHalfway(read, f, NO_FAULTS);
  }

  lemma NoSystemFault()
    ensures !NO_FAULTS.ukey && !NO_FAULTS.systemOpen && !NO_FAULTS.systemResize && NO_FAULTS.systemSent == All
  {
  }

  lemma EnabledCanBeDisabled(t: string)
    requires CanBeEnabled(t)
    ensures CanBeDisabled(WithLines(SYSTEM_AUTH, t))
  {
    hide Contains, Rewrite, Uniform, WithLines, Leveled;
    SystemAuthRoundTrip(t);
  }

  /** And files that are left half disabled. */
  lemma HalfDisablingHappens(read: Reader)
    requires ReadsUtf8(read)
    ensures var f := Files(Encoded(WithLines(SYSTEM_AUTH, EVEN)), []); Halfway(f, Disabling(read, f, NO_FAULTS))
  {
    EvenIsLegible();
    hide *;
    var on := WithLines(SYSTEM_AUTH, EVEN);
    var f := Files(Encoded(on), []);
    EvenCanBeEnabled();
    EnabledCanBeDisabled(EVEN);
    SystemLegible(EVEN);
    EncodedHolds(read, on);
    NothingInNothing(read);
    HeldIsRead(read, f.systemAuth, on);
    NoSystemFault();
    WritingChanges(read, f, on, NO_FAULTS);
    DisablingHalfway(read, f, NO_FAULTS);
  }

  /** Files that can be switched on and off again, and are as they were. */
  lemma SwitchingHappens(read: Reader) returns (on: Files)
    requires ReadsUtf8(read)
    ensures var f := Files(Encoded(EVEN), Encoded(Sample("#")));
      Enabling(read, f, NO_FAULTS) == (on, Done) && Disabling(read, on, NO_FAULTS) == (f, Done)
  {
    EvenIsLegible();
    HashAsMark();
    hide *;
    SampleLetters("#");
    SampleIsOneOfEach("#");
    MarkBytesOfSample("#");
    HashIsOneByte();
    EncodedHolds(read, EVEN);
    EncodedHolds(read, Sample("#"));
    EvenCanBeEnabled();
    EvenAnchorsAreEven();
    var off;
    on, off := SwitchingOnAndOff(read, Files(Encoded(EVEN), Encoded(Sample("#"))), EVEN, Sample("#"), 0, FactorAt("#"));
  }

  lemma EvenAnchorsAreEven()
    ensures EvenAnchors(EVEN)
  {
    hide Uniform, FirstText, EVEN;
    EvenIsEven();
  }

  lemma HashAsMark()
    ensures 'a' !in "#" && '\n' !in "#" && Printable("#")
  {
  }

  /** The first file is lost, and Done reported. */
  lemma CutUnnoticed(read: Reader)
    requires ReadsUtf8(read)
    ensures var f := Files(Encoded(EVEN), Encoded(Sample("#")));
      var outcome := Enabling(read, f, NO_FAULTS.(systemSent := Only(0)));
      outcome.1 == Done && outcome.0.systemAuth == [] && f.systemAuth != []
  {
    hide EVEN, Sample, ReadsUtf8, Enabling, Encoded;
    var on := SwitchingHappens(read);
    EvenIsText();
    var f := Files(Encoded(EVEN), Encoded(Sample("#")));
    WritingIsNotReported(read, f, NO_FAULTS.(systemSent := Only(0)), NO_FAULTS);
  }

  lemma EvenIsText()
    ensures Encoded(EVEN) != []
  {
    assert EVEN != "";
  }

  // ------------------------------------------------------------------------------ the methods

  class PamFiles {
    const read: Reader
    var systemAuth: seq<byte>
    var kiranAuth: seq<byte>

    ghost function View(): Files
      reads this
    {
      Files(systemAuth, kiranAuth)
    }

    constructor (read: Reader, f: Files)
      ensures this.read == read && View() == f
    {
      this.read, systemAuth, kiranAuth := read, f.systemAuth, f.kiranAuth;
    }

    method EnableMultiFactorAuthState(faults: Faults) returns (reply: Reply)
      modifies this
      ensures (View(), reply) == Enabling(read, old(View()), faults)
    {
      if faults.ukey || faults.systemOpen {
        return Error;
      }
      var content := EnableSystem(SYSTEM_AUTH, read(systemAuth));
      if content.Skipped? {
        return AlreadySo;
      }
      if content.Failed? {
        return Error;
      }
      systemAuth := Replaced(systemAuth, Encoded(content.text), faults);
      if faults.kiranOpen {
        return Error;
      }
      var kiran := EnableKiran(read(kiranAuth));
      if !kiran.Rewritten? {
        return Error;
      }
      kiranAuth := Overwritten(kiranAuth, Encoded(kiran.text), faults);
      return Done;
    }

    method DisableMultiFactorAuthState(faults: Faults) returns (reply: Reply)
      modifies this
      ensures (View(), reply) == Disabling(read, old(View()), faults)
    {
      if faults.systemOpen {
        return Error;
      }
      var content := DisableSystem(SYSTEM_AUTH, read(systemAuth));
      if !content.Rewritten? {
        return AlreadySo;
      }
      systemAuth := Replaced(systemAuth, Encoded(content.text), faults);
      if faults.kiranOpen {
        return Error;
      }
      var kiran := DisableKiran(read(kiranAuth));
      if !kiran.Rewritten? {
        return Error;
      }
      kiranAuth := Overwritten(kiranAuth, Encoded(kiran.text), faults);
      return Done;
    }
  }
}
