/** The password check of the account manager (checkPassword in
    src/daemon/account/manager.cpp). */
module PasswordPolicy {

  const INITIAL_PASSWORD := "kylin.123"

  predicate IsDigit(c: char) { '0' <= c <= '9' }

  predicate IsLower(c: char) { 'a' <= c <= 'z' }

  predicate IsUpper(c: char) { 'A' <= c <= 'Z' }

  predicate IsSpecial(c: char) { !IsDigit(c) && !IsLower(c) && !IsUpper(c) }

  // --------------------------------------------------------------- the regular expression

  /** `$`: the end of the text, or just before a newline that ends it. */
  predicate Dollar(s: string, i: nat)
    requires i <= |s|
  {
    i == |s| || (i == |s| - 1 && s[i] == '\n')
  }

  /** `[class]+$` matches at the start of s. */
  predicate OnlyClass(s: string, kind: char -> bool) {
    exists n :: 1 <= n <= |s| && Dollar(s, n) && forall k :: 0 <= k < n ==> kind(s[k])
  }

  /** `.{8,16}$` matches at the start of s; a dot takes anything but a newline. */
  predicate EightToSixteen(s: string) {
    exists n :: 8 <= n <= 16 && n <= |s| && Dollar(s, n) && forall k :: 0 <= k < n ==> s[k] != '\n'
  }

  /** `^(?![\d]+$)(?![a-z]+$)(?![A-Z]+$)(?![^\da-zA-Z]+$).{8,16}$` */
  predicate Accepted(s: string) {
    && !OnlyClass(s, IsDigit)
    && !OnlyClass(s, IsLower)
    && !OnlyClass(s, IsUpper)
    && !OnlyClass(s, IsSpecial)
    && EightToSixteen(s)
  }

  // --------------------------------------------------------------------- what it is for

  predicate Has(s: string, kind: char -> bool) {
    exists k :: 0 <= k < |s| && kind(s[k])
  }

  function One(b: bool): nat { if b then 1 else 0 }

  /** How many of the four character classes occur in s. */
  function Classes(s: string): nat {
    One(Has(s, IsDigit)) + One(Has(s, IsLower)) + One(Has(s, IsUpper)) + One(Has(s, IsSpecial))
  }

  /** s without the one newline that may end it. */
  function Body(s: string): string {
    if s != "" && s[|s| - 1] == '\n' then s[..|s| - 1] else s
  }

  predicate WellFormed(s: string) {
    '\n' !in s && 8 <= |s| <= 16 && Classes(s) >= 2
  }

  lemma OnlyClassMeans(s: string, kind: char -> bool)
    requires '\n' !in Body(s) && Body(s) != ""
    ensures OnlyClass(s, kind) <==> forall k :: 0 <= k < |Body(s)| ==> kind(Body(s)[k])
  {
    var b := Body(s);
    forall n | 0 <= n <= |s| ensures Dollar(s, n) <==> n == |s| || n == |b| {
      if n < |b| {
        assert s[n] == b[n] && b[n] in b;
      }
    }
    if forall k :: 0 <= k < |b| ==> kind(b[k]) {
      assert Dollar(s, |b|) && forall k :: 0 <= k < |b| ==> kind(s[k]);
    }
  }

  lemma TwoClassesMeans(s: string)
    requires s != ""
    ensures Classes(s) >= 2 <==>
              && !(forall k :: 0 <= k < |s| ==> IsDigit(s[k]))
              && !(forall k :: 0 <= k < |s| ==> IsLower(s[k]))
              && !(forall k :: 0 <= k < |s| ==> IsUpper(s[k]))
              && !(forall k :: 0 <= k < |s| ==> IsSpecial(s[k]))
  {
    var c := s[0];
    assert Has(s, IsDigit) || Has(s, IsLower) || Has(s, IsUpper) || Has(s, IsSpecial);
  }

  lemma LengthMeans(s: string)
    ensures EightToSixteen(s) <==> '\n' !in Body(s) && 8 <= |Body(s)| <= 16
  {
    var b := Body(s);
    if EightToSixteen(s) {
      var n :| 8 <= n <= 16 && n <= |s| && Dollar(s, n) && forall k :: 0 <= k < n ==> s[k] != '\n';
      assert b == s[..n];
    }
    if '\n' !in b && 8 <= |b| <= 16 {
      assert Dollar(s, |b|) && forall k :: 0 <= k < |b| ==> s[k] == b[k];
    }
  }

  /** The expression accepts exactly the texts that, without the one newline that may end
      them, have 8 to 16 characters, no newline, and two of the four classes. */
  lemma AcceptedMeans(s: string)
    ensures Accepted(s) <==> WellFormed(Body(s))
  {
    LengthMeans(s);
    if '\n' !in Body(s) && 8 <= |Body(s)| {
      OnlyClassMeans(s, IsDigit);
      OnlyClassMeans(s, IsLower);
      OnlyClassMeans(s, IsUpper);
      OnlyClassMeans(s, IsSpecial);
      TwoClassesMeans(Body(s));
    }
  }

  /** The intended rule, two classes and 8 to 16 characters, is what is enforced unless the
      text ends in a newline; then the newline is let through uncounted. */
  lemma IntendedRuleHoldsWithoutFinalNewline(s: string)
    ensures (Accepted(s) <==> WellFormed(s)) <==> !(s != "" && s[|s| - 1] == '\n' && WellFormed(s[..|s| - 1]))
  {
    AcceptedMeans(s);
  }

  /** Seventeen characters are accepted if the last is a newline. */
  lemma SeventeenWithANewline()
    ensures var s := "kylin.123kylin.1\n";
      |s| == 17 && Accepted(s) && !WellFormed(s) && Accepted(s[..16]) && WellFormed(s[..16])
  {
    var s := "kylin.123kylin.1\n";
    var b := s[..16];
    assert b == "kylin.123kylin.1" && Body(b) == b && Body(s) == b;
    assert IsLower(b[0]) && IsDigit(b[6]);
    assert Has(b, IsLower) && Has(b, IsDigit);
    AcceptedMeans(s);
    AcceptedMeans(b);
  }

  // ---------------------------------------------------------------------- the user name

  /** password.contains(userName, Qt::CaseInsensitive), with `fold` as the case folding. */
  predicate ContainsName(password: string, name: string, fold: char -> char) {
    exists i :: 0 <= i && i + |name| <= |password| && NameAt(password, name, fold, i)
  }

  predicate NameAt(password: string, name: string, fold: char -> char, i: nat)
    requires i + |name| <= |password|
  {
    forall k :: 0 <= k < |name| ==> fold(password[i + k]) == fold(name[k])
  }

  predicate Check(password: string, name: string, fold: char -> char) {
    !ContainsName(password, name, fold) && Accepted(password)
  }

  /** Some part of the password is the name in some letter case. */
  ghost predicate HoldsName(password: string, name: string, fold: char -> char) {
    exists a, m, b :: password == a + m + b && SameLetters(m, name, fold)
  }

  ghost predicate SameLetters(m: string, name: string, fold: char -> char) {
    |m| == |name| && forall k :: 0 <= k < |m| ==> fold(m[k]) == fold(name[k])
  }

  lemma ContainsNameMeans(password: string, name: string, fold: char -> char)
    ensures ContainsName(password, name, fold) <==> HoldsName(password, name, fold)
  {
    if ContainsName(password, name, fold) {
      var i :| 0 <= i && i + |name| <= |password| && NameAt(password, name, fold, i);
      var a, m, b := password[..i], password[i..i + |name|], password[i + |name|..];
      assert password == a + m + b && SameLetters(m, name, fold);
    }
    if a, m, b :| password == a + m + b && SameLetters(m, name, fold) {
      assert forall k :: 0 <= k < |m| ==> password[|a| + k] == m[k];
      assert NameAt(password, name, fold, |a|);
    }
  }

  /** A password passes exactly if it meets the rule, its final newline aside, and no part of
      it is the user name in any letter case. */
  lemma CheckMeans(password: string, name: string, fold: char -> char)
    ensures Check(password, name, fold) <==> WellFormed(Body(password)) && !HoldsName(password, name, fold)
  {
    AcceptedMeans(password);
    ContainsNameMeans(password, name, fold);
  }

  lemma LettersAndAStop(written: string, tail: string)
    requires exists k :: 0 <= k < |written| && !IsSpecial(written[k])
    requires tail != "" && tail[0] == '.'
    ensures Classes(written + tail) >= 2
  {
    var password := written + tail;
    var k :| 0 <= k < |written| && !IsSpecial(written[k]);
    assert password[k] == written[k] && password[|written|] == '.';
    assert Has(password, IsSpecial) && (Has(password, IsDigit) || Has(password, IsLower) || Has(password, IsUpper));
  }

  lemma NameIsHeld(written: string, tail: string, name: string, fold: char -> char)
    requires SameLetters(written, name, fold)
    ensures HoldsName(written + tail, name, fold)
  {
    assert written + tail == "" + written + tail;
  }

  /** Passwords that are refused for the name alone, in whatever letter case it is written. */
  lemma RefusedForTheName(name: string, written: string, fold: char -> char)
    requires name in ["sysadm", "secadm", "audadm", "unknown_account"]
    requires SameLetters(written, name, fold)
    requires '\n' !in written && exists k :: 0 <= k < |written| && !IsSpecial(written[k])
    ensures var password := written + if name == "unknown_account" then "." else ".123";
      Accepted(password) && !Check(password, name, fold)
  {
    hide Accepted, Check, HoldsName, Classes, IsSpecial;
    var tail := if name == "unknown_account" then "." else ".123";
    var password := written + tail;
    CheckMeans(password, name, fold);
    NameIsHeld(written, tail, name, fold);
    AcceptedMeans(password);
    LettersAndAStop(written, tail);
    assert Body(password) == password;
  }

  /** One for each name. */
  lemma NamesAreRefused(fold: char -> char)
    ensures !Check("sysadm.123", "sysadm", fold) && !Check("secadm.123", "secadm", fold)
    ensures !Check("audadm.123", "audadm", fold) && !Check("unknown_account.", "unknown_account", fold)
  {
    hide Check, WellFormed;
    NameIsHeld("sysadm", ".123", "sysadm", fold);
    NameIsHeld("secadm", ".123", "secadm", fold);
    NameIsHeld("audadm", ".123", "audadm", fold);
    NameIsHeld("unknown_account", ".", "unknown_account", fold);
    assert "sysadm" + ".123" == "sysadm.123" && "secadm" + ".123" == "secadm.123";
    assert "audadm" + ".123" == "audadm.123" && "unknown_account" + "." == "unknown_account.";
    CheckMeans("sysadm.123", "sysadm", fold);
    CheckMeans("secadm.123", "secadm", fold);
    CheckMeans("audadm.123", "audadm", fold);
    CheckMeans("unknown_account.", "unknown_account", fold);
  }

  /** The folding leaves ASCII digits, lower case letters and the full stop alone. */
  ghost predicate FoldsAscii(fold: char -> char) {
    forall c: char :: IsDigit(c) || IsLower(c) || c == '.' || c == '_' ==> fold(c) == c
  }

  /** The password every account starts with passes the check for every account name. */
  lemma InitialPasswordPasses(name: string, fold: char -> char)
    requires FoldsAscii(fold)
    requires name in ["sysadm", "secadm", "audadm", "unknown_account"]
    ensures Check(INITIAL_PASSWORD, name, fold)
  {
    var p := INITIAL_PASSWORD;
    assert p[0] == 'k' && IsLower(p[0]) && p[5] == '.' && IsSpecial(p[5]);
    assert Body(p) == p;
    AcceptedMeans(p);
    forall i: nat | i + |name| <= |p| ensures !NameAt(p, name, fold, i) {
      assert 0 <= i <= 3;
      assert name[0] in "sa" && p[i] !in "sa";
      assert fold(p[i + 0]) == p[i] && fold(name[0]) == name[0];
    }
  }
}
