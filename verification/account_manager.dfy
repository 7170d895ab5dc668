/** The account manager (src/daemon/account/manager.cpp, manager.h): logins, freezing,
    sessions and passwords. `Accounts` states each D-Bus call as one step on the user table
    and the session map, and proves what holds over every run of calls; `AccountManager` is
    the class whose methods perform the steps. */
module Accounts {
  import opened PasswordPolicy

  const SYSADM := 1
  const SECADM := 2
  const AUDADM := 4
  const UNKNOWN_ACCOUNT := 8
  const FREEZE_SECONDS := 180
  const MAX_TRIES := 5

  const KEYS: seq<string> := ["sysadm", "secadm", "audadm", "unknown_account"]

  /** QMetaEnum::keyToValue and valueToKey for AccountRole. */
  function KeyToValue(key: string): int {
    if key == "sysadm" then SYSADM
    else if key == "secadm" then SECADM
    else if key == "audadm" then AUDADM
    else if key == "unknown_account" then UNKNOWN_ACCOUNT
    else -1
  }

  function ValueToKey(value: int): string {
    if value == SYSADM then "sysadm"
    else if value == SECADM then "secadm"
    else if value == AUDADM then "audadm"
    else if value == UNKNOWN_ACCOUNT then "unknown_account"
    else ""
  }

  /** The cryptographic functions, with their keys, and the case folding. */
  datatype Env = Env(
    rsaDecrypt: string -> string,
    aesEncrypt: string -> string,
    aesDecrypt: string -> string,
    fold: char -> char)

  ghost predicate AesRoundTrip(env: Env) {
    forall m :: env.aesDecrypt(env.aesEncrypt(m)) == m
  }

  datatype Row = Row(role: string, passwd: string, tryTimes: int, lastTryTime: int)

  datatype Session = Session(isLogin: bool, role: int, name: string, pid: int)

  datatype State = State(
    table: map<string, Row>,
    clients: map<string, Session>,
    watched: set<string>,
    uidReusable: bool)

  datatype Reply =
    | Success
    | UnknownAccount
    | AlreadyLoggedIn
    | Frozen
    | PasswordError
    | NotLoggedIn
    | PermissionDenied
    | PasswordRejected
    | SamePassword

  /** Login reads the clock at `checked` in isFreeze and at `noted` in updateFreezeInfo. */
  datatype Event =
    | Login(caller: string, pid: int, user: string, cipher: string, checked: int, noted: int)
    | Logout(caller: string)
    | ChangePassphrase(caller: string, user: string, oldCipher: string, newCipher: string)
    | SetUidReusable(caller: string, enabled: bool)
    | ServiceUnregistered(caller: string)

  function RoleFromTable(table: map<string, Row>, user: string): int {
    if user in table then KeyToValue(table[user].role) else UNKNOWN_ACCOUNT
  }

  function RoleOf(s: State, caller: string): int {
    if caller in s.clients then s.clients[caller].role else UNKNOWN_ACCOUNT
  }

  predicate LoggedIn(s: State, caller: string) {
    caller in s.clients && s.clients[caller].isLogin
  }

  predicate Verifies(env: Env, table: map<string, Row>, user: string, cipher: string) {
    user in table && env.rsaDecrypt(cipher) == env.aesDecrypt(table[user].passwd)
  }

  function Cleared(row: Row): Row { row.(tryTimes := 0, lastTryTime := 0) }

  function Failed(row: Row, now: int): Row { row.(tryTimes := row.tryTimes + 1, lastTryTime := now) }

  /** A freeze of the row is over at `now`: the counter starts again. */
  predicate Expired(row: Row, now: int) {
    row.tryTimes >= MAX_TRIES && row.lastTryTime + FREEZE_SECONDS < now
  }

  predicate IsFrozen(row: Row, now: int) {
    row.tryTimes >= MAX_TRIES && row.lastTryTime + FREEZE_SECONDS > now
  }

  function Thawed(row: Row, now: int): Row {
    if Expired(row, now) then Cleared(row) else row
  }

  function DoLogin(env: Env, s: State, e: Event): (State, Reply)
    requires e.Login?
  {
    if RoleFromTable(s.table, e.user) == UNKNOWN_ACCOUNT then (s, UnknownAccount)
    else
      var s1 := s.(watched := s.watched + {e.caller});
      if LoggedIn(s, e.caller) then (s1, AlreadyLoggedIn)
      else
        var row := s.table[e.user];
        if IsFrozen(row, e.checked) then (s1, Frozen)
        else if !Verifies(env, s.table, e.user, e.cipher) then
          (s1.(table := s.table[e.user := Failed(Thawed(row, e.checked), e.noted)]), PasswordError)
        else
          (s1.(table := s.table[e.user := Cleared(row)],
               clients := s.clients[e.caller := Session(true, KeyToValue(row.role), e.user, e.pid)]), Success)
  }

  function DoLogout(s: State, caller: string): (State, Reply) {
    if RoleOf(s, caller) == UNKNOWN_ACCOUNT then (s, UnknownAccount)
    else if !s.clients[caller].isLogin then (s, NotLoggedIn)
    else (s.(clients := s.clients[caller := s.clients[caller].(isLogin := false)]), Success)
  }

  function DoChangePassphrase(env: Env, s: State, e: Event): (State, Reply)
    requires e.ChangePassphrase?
  {
    var role := RoleOf(s, e.caller);
    if role == UNKNOWN_ACCOUNT || e.user != ValueToKey(role) then (s, PermissionDenied)
    else if !Verifies(env, s.table, e.user, e.oldCipher) then (s, PasswordError)
    else if !Check(env.rsaDecrypt(e.newCipher), e.user, env.fold) then (s, PasswordRejected)
    else if env.rsaDecrypt(e.oldCipher) == env.rsaDecrypt(e.newCipher) then (s, SamePassword)
    else
      var row := s.table[e.user].(passwd := env.aesEncrypt(env.rsaDecrypt(e.newCipher)));
      (s.(table := s.table[e.user := row]), Success)
  }

  function Step(env: Env, s: State, e: Event): (State, Reply) {
    match e
    case Login(_, _, _, _, _, _) => DoLogin(env, s, e)
    case Logout(caller) => DoLogout(s, caller)
    case ChangePassphrase(_, _, _, _) => DoChangePassphrase(env, s, e)
    case SetUidReusable(caller, enabled) =>
      if RoleOf(s, caller) == UNKNOWN_ACCOUNT then (s, PermissionDenied)
      else (s.(uidReusable := enabled), Success)
    case ServiceUnregistered(caller) =>
      (s.(watched := s.watched - {caller}, clients := s.clients - {caller}), Success)
  }

  function After(env: Env, s: State, events: seq<Event>): State
    decreases |events|
  {
    if events == [] then s else After(env, Step(env, s, events[0]).0, events[1..])
  }

  /** The clock never goes back. */
  ghost predicate Clocked(events: seq<Event>, from: int)
    decreases |events|
  {
    events == [] ||
    match events[0]
    case Login(_, _, _, _, checked, noted) => from <= checked <= noted && Clocked(events[1..], noted)
    case _ => Clocked(events[1..], from)
  }

  // ------------------------------------------------------------------------- the table

  /** The table has one row for each role key, under that key. */
  ghost predicate TableInv(table: map<string, Row>) {
    && table.Keys == set k | k in KEYS
    && forall name :: name in table ==> table[name].role == name
  }

  ghost predicate PasswordsMeetPolicy(env: Env, table: map<string, Row>) {
    forall name :: name in table ==> Check(env.aesDecrypt(table[name].passwd), name, env.fold)
  }

  /** Every session belongs to a row of the table, carries that row's role, which is a real
      one, and is watched for the end of its client. */
  ghost predicate SessionInv(s: State) {
    forall c :: c in s.clients ==> GoodSession(s, s.clients[c]) && c in s.watched
  }

  ghost predicate GoodSession(s: State, session: Session) {
    && session.name in s.table
    && s.table[session.name].role == session.name
    && session.role == KeyToValue(session.name)
    && ValueToKey(session.role) == session.name
    && session.role in {SYSADM, SECADM, AUDADM}
  }

  ghost predicate Inv(env: Env, s: State) {
    TableInv(s.table) && SessionInv(s) && PasswordsMeetPolicy(env, s.table)
  }

  function InitialTable(env: Env): map<string, Row> {
    map name | name in KEYS :: Row(name, env.aesEncrypt(INITIAL_PASSWORD), 0, 0)
  }

  lemma InitialInv(env: Env, reusable: bool)
    requires AesRoundTrip(env) && FoldsAscii(env.fold)
    ensures Inv(env, State(InitialTable(env), map[], {}, reusable))
  {
    forall name | name in KEYS ensures Check(INITIAL_PASSWORD, name, env.fold) {
      InitialPasswordPasses(name, env.fold);
    }
  }

  lemma RowsKeepTheirRoles(env: Env, s: State, e: Event)
    ensures var s' := Step(env, s, e).0;
      s'.table.Keys == s.table.Keys && forall n :: n in s.table ==> s'.table[n].role == s.table[n].role
  {
    hide Check, IsFrozen, Expired;
  }

  lemma TableInvStep(env: Env, s: State, e: Event)
    requires TableInv(s.table)
    ensures var s' := Step(env, s, e).0;
      TableInv(s'.table) && s'.table.Keys == s.table.Keys
      && forall n :: n in s.table ==> s'.table[n].role == s.table[n].role
  {
    RowsKeepTheirRoles(env, s, e);
    hide Step;
  }

  lemma NewSessionIsGood(env: Env, s: State, e: Event)
    requires TableInv(s.table) && e.Login? && Step(env, s, e).1 == Success
    ensures var s' := Step(env, s, e).0;
      e.caller in s'.clients && GoodSession(s', s'.clients[e.caller]) && e.caller in s'.watched
  {
    assert e.user in KEYS;
  }

  lemma OldSessionKept(env: Env, s: State, e: Event, c: string)
    requires c in Step(env, s, e).0.clients
    requires !(e.Login? && e.caller == c && Step(env, s, e).1 == Success)
    ensures var s' := Step(env, s, e).0;
      && c in s.clients
      && s'.clients[c].name == s.clients[c].name && s'.clients[c].role == s.clients[c].role
      && (c in s.watched ==> c in s'.watched)
  {
  }

  lemma SessionInvStep(env: Env, s: State, e: Event)
    requires TableInv(s.table) && SessionInv(s)
    ensures SessionInv(Step(env, s, e).0)
  {
    var s' := Step(env, s, e).0;
    forall c | c in s'.clients ensures GoodSession(s', s'.clients[c]) && c in s'.watched {
      if e.Login? && e.caller == c && Step(env, s, e).1 == Success {
        NewSessionIsGood(env, s, e);
      } else {
        OldSessionKept(env, s, e, c);
        TableInvStep(env, s, e);
        GoodSessionCarries(s, s', s.clients[c], s'.clients[c]);
      }
    }
  }

  lemma GoodSessionCarries(s: State, s': State, before: Session, after: Session)
    requires GoodSession(s, before) && after.name == before.name && after.role == before.role
    requires before.name in s'.table && s'.table[before.name].role == s.table[before.name].role
    ensures GoodSession(s', after)
  {
  }

  lemma PolicyStep(env: Env, s: State, e: Event)
    requires AesRoundTrip(env) && PasswordsMeetPolicy(env, s.table)
    ensures PasswordsMeetPolicy(env, Step(env, s, e).0.table)
  {
    hide Check, IsFrozen, Expired;
    var s' := Step(env, s, e).0;
    forall name | name in s'.table ensures Check(env.aesDecrypt(s'.table[name].passwd), name, env.fold) {
      if s'.table[name].passwd != s.table[name].passwd {
        assert e.ChangePassphrase? && e.user == name;
        assert s'.table[name].passwd == env.aesEncrypt(env.rsaDecrypt(e.newCipher));
      }
    }
  }

  lemma InvStep(env: Env, s: State, e: Event)
    requires AesRoundTrip(env) && Inv(env, s)
    ensures Inv(env, Step(env, s, e).0)
  {
    TableInvStep(env, s, e);
    SessionInvStep(env, s, e);
    PolicyStep(env, s, e);
  }

  /** Over every run: the table keeps its rows and roles, every session matches its row, and
      every stored password meets the policy. */
  lemma {:induction false} InvRun(env: Env, s: State, events: seq<Event>)
    requires AesRoundTrip(env) && Inv(env, s)
    ensures Inv(env, After(env, s, events))
    decreases |events|
  {
    if events != [] {
      InvStep(env, s, events[0]);
      InvRun(env, Step(env, s, events[0]).0, events[1..]);
    }
  }

  /** While a client stays connected and does not log out, nothing changes its session. */
  lemma {:induction false} SessionIsStable(env: Env, s: State, events: seq<Event>, c: string)
    requires LoggedIn(s, c)
    requires Logout(c) !in events && ServiceUnregistered(c) !in events
    ensures c in After(env, s, events).clients && After(env, s, events).clients[c] == s.clients[c]
    decreases |events|
  {
    if events != [] {
      var e := events[0];
      assert e in events;
      var s' := Step(env, s, e).0;
      assert c in s'.clients && s'.clients[c] == s.clients[c];
      SessionIsStable(env, s', events[1..], c);
    }
  }

  // -------------------------------------------------------------- what each call comes to

  /** The names one can log in with, and their roles. */
  ghost predicate RealRole(user: string, role: int) {
    (user == "sysadm" && role == 1) || (user == "secadm" && role == 2) || (user == "audadm" && role == 4)
  }

  ghost predicate RealName(user: string) {
    user == "sysadm" || user == "secadm" || user == "audadm"
  }

  /** Every reply of Login under its exact condition: the name, the client's own session, the
      freeze, the password. */
  lemma LoginReplies(env: Env, s: State, e: Event)
    requires TableInv(s.table) && e.Login?
    ensures RealName(e.user) ==> e.user in s.table
    ensures var reply := Step(env, s, e).1;
      var busy := e.caller in s.clients && s.clients[e.caller].isLogin;
      && (reply == UnknownAccount <==> !RealName(e.user))
      && (reply == AlreadyLoggedIn <==> RealName(e.user) && busy)
      && (RealName(e.user) && !busy ==>
            var row := s.table[e.user];
            var frozen := row.tryTimes >= 5 && e.checked < row.lastTryTime + 180;
            var right := env.rsaDecrypt(e.cipher) == env.aesDecrypt(row.passwd);
            && (reply == Frozen <==> frozen)
            && (reply == PasswordError <==> !frozen && !right)
            && (reply == Success <==> !frozen && right))
  {
    UserHasRow(s.table, e.user);
  }

  lemma UserHasRow(table: map<string, Row>, user: string)
    requires TableInv(table)
    ensures user in table <==> RealName(user) || user == "unknown_account"
    ensures RealName(user) ==> table[user].role == user && RealRole(user, RoleFromTable(table, user))
    ensures RoleFromTable(table, user) == UNKNOWN_ACCOUNT <==> !RealName(user)
  {
    assert user in table <==> user in KEYS;
    assert forall i :: 0 <= i < |KEYS| ==> KEYS[i] in table;
    assert KEYS[0] == "sysadm" && KEYS[1] == "secadm" && KEYS[2] == "audadm" && KEYS[3] == "unknown_account";
  }

  /** What Login leaves behind with each reply. After a success the client has the session of
      the account it logged in to, with that account's role, and the count starts again;
      everything else is as it was. */
  lemma LoginLeaves(env: Env, s: State, e: Event)
    requires TableInv(s.table) && e.Login?
    ensures var (s', reply) := Step(env, s, e);
      var seen := s.(watched := s.watched + {e.caller});
      match reply
      case UnknownAccount => s' == s
      case AlreadyLoggedIn => s' == seen
      case Frozen => s' == seen
      case PasswordError =>
        && e.user in s.table
        && (var row := s.table[e.user];
            var over := row.tryTimes >= 5 && row.lastTryTime + 180 < e.checked;
            s' == seen.(table := s.table[e.user :=
              row.(tryTimes := if over then 1 else row.tryTimes + 1, lastTryTime := e.noted)]))
      case Success =>
        && e.user in s.table && e.caller in s'.clients
        && RealRole(e.user, s'.clients[e.caller].role)
        && s'.clients[e.caller] == Session(true, s'.clients[e.caller].role, e.user, e.pid)
        && s' == seen.(clients := s.clients[e.caller := s'.clients[e.caller]],
                       table := s.table[e.user := s.table[e.user].(tryTimes := 0, lastTryTime := 0)])
      case _ => false
  {
    UserHasRow(s.table, e.user);
  }

  /** Every reply of Logout; only the flag of the client's own session changes. */
  lemma LogoutMeans(env: Env, s: State, c: string)
    requires SessionInv(s)
    ensures var (s', reply) := Step(env, s, Logout(c));
      && (reply == UnknownAccount <==> c !in s.clients)
      && (reply == NotLoggedIn <==> c in s.clients && !s.clients[c].isLogin)
      && (reply == Success <==> c in s.clients && s.clients[c].isLogin)
      && (reply == Success ==> s' == s.(clients := s.clients[c := s.clients[c].(isLogin := false)]))
      && (reply != Success ==> s' == s)
  {
    if c in s.clients {
      assert GoodSession(s, s.clients[c]);
    }
  }

  /** A client with a session, and no other, sets the switch, and nothing else. */
  lemma SetUidReusableMeans(env: Env, s: State, c: string, enabled: bool)
    requires SessionInv(s)
    ensures Step(env, s, SetUidReusable(c, enabled)) ==
      if c in s.clients then (s.(uidReusable := enabled), Success) else (s, PermissionDenied)
  {
    if c in s.clients {
      assert GoodSession(s, s.clients[c]);
    }
  }

  /** A client that goes takes its session and its watch along, and nothing else. */
  lemma DisconnectMeans(env: Env, s: State, c: string, d: string)
    ensures var s' := Step(env, s, ServiceUnregistered(c)).0;
      && c !in s'.clients && c !in s'.watched && s'.table == s.table && s'.uidReusable == s.uidReusable
      && (d != c ==> (d in s'.clients <==> d in s.clients) && (d in s'.watched <==> d in s.watched))
      && (d != c && d in s.clients ==> s'.clients[d] == s.clients[d])
  {
  }

  /** Every reply of ChangePassphrase under its exact condition. */
  lemma PassphraseReplies(env: Env, s: State, e: Event)
    requires Inv(env, s) && e.ChangePassphrase?
    ensures var reply := Step(env, s, e).1;
      var holder := e.caller in s.clients && s.clients[e.caller].name == e.user;
      var oldText, newText := env.rsaDecrypt(e.oldCipher), env.rsaDecrypt(e.newCipher);
      && (holder ==> e.user in s.table)
      && (reply == PermissionDenied <==> !holder)
      && (holder ==>
            var right := oldText == env.aesDecrypt(s.table[e.user].passwd);
            var meets := WellFormed(Body(newText)) && !HoldsName(newText, e.user, env.fold);
            && (reply == PasswordError <==> !right)
            && (reply == PasswordRejected <==> right && !meets)
            && (reply == SamePassword <==> right && meets && newText == oldText)
            && (reply == Success <==> right && meets && newText != oldText))
  {
    CheckMeans(env.rsaDecrypt(e.newCipher), e.user, env.fold);
    if e.caller in s.clients {
      assert GoodSession(s, s.clients[e.caller]);
    }
  }

  /** At first the initial password, and no other, opens every account. */
  lemma InitialPasswordWorks(env: Env, user: string, cipher: string)
    requires AesRoundTrip(env) && RealName(user)
    ensures user in InitialTable(env)
    ensures Verifies(env, InitialTable(env), user, cipher) <==> env.rsaDecrypt(cipher) == "kylin.123"
    ensures InitialTable(env)[user].tryTimes == 0 && InitialTable(env)[user].lastTryTime == 0
  {
    assert KEYS[0] == "sysadm" && KEYS[1] == "secadm" && KEYS[2] == "audadm";
  }

  lemma {:induction false} AfterLast(env: Env, s: State, events: seq<Event>)
    requires events != []
    ensures var n := |events| - 1;
      After(env, s, events) == Step(env, After(env, s, events[..n]), events[n]).0
    decreases |events|
  {
    var n := |events| - 1;
    if n > 0 {
      assert events[1..][..n - 1] == events[..n][1..];
      AfterLast(env, Step(env, s, events[0]).0, events[1..]);
    }
  }

  /** Event i of the run is a login of c that succeeds. */
  ghost predicate LogsInAt(env: Env, s: State, events: seq<Event>, c: string, i: nat)
    requires i < |events|
  {
    events[i].Login? && events[i].caller == c && Step(env, After(env, s, events[..i]), events[i]).1 == Success
  }

  /** After any run the session of a client is that of its latest successful login: the name,
      role and process are the ones it logged in with. Without one it is the one it had. */
  lemma {:induction false} SessionIsOfLatestLogin(env: Env, s: State, events: seq<Event>, c: string)
    returns (i: int)
    requires TableInv(s.table) && c in After(env, s, events).clients
    ensures -1 <= i < |events|
    ensures forall j :: i < j < |events| ==> !LogsInAt(env, s, events, c, j) && events[j] != ServiceUnregistered(c)
    ensures var session := After(env, s, events).clients[c];
      if i >= 0 then
        && LogsInAt(env, s, events, c, i)
        && session.name == events[i].user && session.pid == events[i].pid && RealRole(events[i].user, session.role)
      else
        && c in s.clients
        && session.name == s.clients[c].name && session.pid == s.clients[c].pid && session.role == s.clients[c].role
    decreases |events|
  {
    if events == [] {
      i := -1;
    } else {
      hide After, Step, TableInv, RealRole;
      var n := |events| - 1;
      var before := After(env, s, events[..n]);
      AfterLast(env, s, events);
      TableInvRun(env, s, events[..n]);
      if LogsInAt(env, s, events, c, n) {
        LoginLeaves(env, before, events[n]);
        i := n;
      } else {
        SessionCarries(env, before, events[n], c);
        i := SessionIsOfLatestLogin(env, s, events[..n], c);
        forall j: nat | j < n
          ensures LogsInAt(env, s, events[..n], c, j) <==> LogsInAt(env, s, events, c, j)
          ensures events[..n][j] == events[j]
        {
          LogsInBefore(env, s, events, c, n, j);
        }
      }
    }
  }

  lemma LogsInBefore(env: Env, s: State, events: seq<Event>, c: string, n: nat, j: nat)
    requires j < n <= |events|
    ensures LogsInAt(env, s, events[..n], c, j) <==> LogsInAt(env, s, events, c, j)
  {
    assert events[..n][..j] == events[..j];
  }

  lemma {:induction false} TableInvRun(env: Env, s: State, events: seq<Event>)
    requires TableInv(s.table)
    ensures TableInv(After(env, s, events).table)
    decreases |events|
  {
    if events != [] {
      TableInvStep(env, s, events[0]);
      TableInvRun(env, Step(env, s, events[0]).0, events[1..]);
    }
  }

  lemma SessionCarries(env: Env, s: State, e: Event, c: string)
    requires c in Step(env, s, e).0.clients
    requires !(e.Login? && e.caller == c && Step(env, s, e).1 == Success)
    ensures e != ServiceUnregistered(c) && c in s.clients
    ensures var now, was := Step(env, s, e).0.clients[c], s.clients[c];
      now.name == was.name && now.pid == was.pid && now.role == was.role
  {
  }

  // ------------------------------------------------------------------- failed logins

  ghost predicate Rejects(env: Env, s: State, e: Event, user: string) {
    e.Login? && e.user == user && Step(env, s, e).1 == PasswordError
  }

  ghost predicate Admits(env: Env, s: State, e: Event, user: string) {
    e.Login? && e.user == user && Step(env, s, e).1 == Success
  }

  /** The times at which the run turned away a login of user for its password. */
  ghost function RejectTimes(env: Env, s: State, events: seq<Event>, user: string): seq<int>
    decreases |events|
  {
    if events == [] then []
    else
      (if Rejects(env, s, events[0], user) then [events[0].noted] else [])
      + RejectTimes(env, Step(env, s, events[0]).0, events[1..], user)
  }

  ghost predicate NeverAdmits(env: Env, s: State, events: seq<Event>, user: string)
    decreases |events|
  {
    events == [] ||
    (!Admits(env, s, events[0], user) && NeverAdmits(env, Step(env, s, events[0]).0, events[1..], user))
  }

  /** Only a rejected login and a successful one touch the counter of a row. */
  lemma CounterStep(env: Env, s: State, e: Event, user: string)
    requires user in s.table
    ensures var s' := Step(env, s, e).0;
      && user in s'.table
      && (Rejects(env, s, e, user) ==>
            !IsFrozen(s.table[user], e.checked) && s'.table[user] == Failed(Thawed(s.table[user], e.checked), e.noted))
      && (Admits(env, s, e, user) ==>
            !IsFrozen(s.table[user], e.checked) && s'.table[user] == Cleared(s.table[user]))
      && (!Rejects(env, s, e, user) && !Admits(env, s, e, user) ==>
            && s'.table[user].tryTimes == s.table[user].tryTimes
            && s'.table[user].lastTryTime == s.table[user].lastTryTime)
  {
  }

  /** Any six rejections in a row span the freeze time. */
  ghost predicate Spaced(times: seq<int>) {
    forall k :: 0 <= k && k + 5 < |times| ==> times[k + 5] - times[k] >= FREEZE_SECONDS
  }

  ghost predicate Ascending(times: seq<int>) {
    forall i, j :: 0 <= i <= j < |times| ==> times[i] <= times[j]
  }

  /** What the row remembers of the rejections: the time of the latest, and, of up to five
      latest ones, their number, unless they already span the freeze time. */
  ghost predicate Remembers(row: Row, times: seq<int>) {
    && row.tryTimes >= 0
    && (times != [] ==> row.lastTryTime == times[|times| - 1])
    && forall i :: 0 <= i < |times| && |times| - MAX_TRIES <= i ==>
         row.tryTimes >= |times| - i || times[|times| - 1] - times[i] >= FREEZE_SECONDS
  }

  lemma OneMoreRejection(row: Row, times: seq<int>, checked: int, noted: int)
    requires Ascending(times) && Spaced(times) && Remembers(row, times)
    requires times != [] ==> times[|times| - 1] <= checked
    requires checked <= noted && !IsFrozen(row, checked)
    ensures var more := times + [noted];
      Ascending(more) && Spaced(more) && Remembers(Failed(Thawed(row, checked), noted), more)
  {
    var more := times + [noted];
    var n := |times|;
    var row' := Failed(Thawed(row, checked), noted);
    forall i | 0 <= i < n + 1 && n + 1 - MAX_TRIES <= i
      ensures row'.tryTimes >= n + 1 - i || noted - more[i] >= FREEZE_SECONDS
    {
      assert i < n ==> row.tryTimes >= n - i || times[n - 1] - times[i] >= FREEZE_SECONDS;
    }
    assert n >= 5 ==> row.tryTimes >= 5 || times[n - 1] - times[n - 5] >= FREEZE_SECONDS;
  }

  /** The rejection times so far, after one more event. */
  ghost function Extended(env: Env, s: State, e: Event, user: string, times: seq<int>): seq<int> {
    times + if Rejects(env, s, e, user) then [e.noted] else []
  }

  ghost function ClockAfter(e: Event, clock: int): int {
    if e.Login? then e.noted else clock
  }

  ghost predicate TracksRejections(s: State, user: string, times: seq<int>, clock: int) {
    && user in s.table
    && Ascending(times) && Spaced(times) && Remembers(s.table[user], times)
    && (times != [] ==> times[|times| - 1] <= clock)
  }

  lemma TracksStep(env: Env, s: State, e: Event, user: string, times: seq<int>, clock: int)
    requires TracksRejections(s, user, times, clock) && !Admits(env, s, e, user)
    requires e.Login? ==> clock <= e.checked <= e.noted
    ensures TracksRejections(Step(env, s, e).0, user, Extended(env, s, e, user, times), ClockAfter(e, clock))
  {
    CounterStep(env, s, e, user);
    if Rejects(env, s, e, user) {
      OneMoreRejection(s.table[user], times, e.checked, e.noted);
    } else {
      assert Extended(env, s, e, user, times) == times;
    }
  }

  lemma {:induction false} RateBoundFrom(
      env: Env, s: State, events: seq<Event>, user: string, times: seq<int>, clock: int)
    requires Clocked(events, clock) && NeverAdmits(env, s, events, user)
    requires TracksRejections(s, user, times, clock)
    ensures Spaced(times + RejectTimes(env, s, events, user))
    decreases |events|
  {
    hide Step, Spaced;
    if events == [] {
      assert times + RejectTimes(env, s, events, user) == times;
    } else {
      var e := events[0];
      var s' := Step(env, s, e).0;
      var times' := Extended(env, s, e, user, times);
      TracksStep(env, s, e, user, times, clock);
      RateBoundFrom(env, s', events[1..], user, times', ClockAfter(e, clock));
      var now := if Rejects(env, s, e, user) then [e.noted] else [];
      var rest := RejectTimes(env, s', events[1..], user);
      assert RejectTimes(env, s, events, user) == now + rest;
      assert times + (now + rest) == (times + now) + rest;
    }
  }

  /** From any counter value, in any run, any six consecutive wrong-password rejections of an
      account without a successful login of it between them span at least 180 seconds. */
  lemma RateBound(env: Env, s: State, events: seq<Event>, user: string, clock: int)
    requires user in s.table && s.table[user].tryTimes >= 0
    requires Clocked(events, clock) && NeverAdmits(env, s, events, user)
    ensures Spaced(RejectTimes(env, s, events, user))
  {
    RateBoundFrom(env, s, events, user, [], clock);
    assert [] + RejectTimes(env, s, events, user) == RejectTimes(env, s, events, user);
  }

  lemma {:induction false} SpacesAddUp(times: seq<int>, k: nat)
    requires Spaced(times) && 5 * k < |times|
    ensures times[5 * k] - times[0] >= FREEZE_SECONDS * k
  {
    if k > 0 {
      SpacesAddUp(times, k - 1);
      assert times[5 * (k - 1) + 5] - times[5 * (k - 1)] >= FREEZE_SECONDS;
    }
  }

  /** So login guesses are rationed for good: in any such run, of the rejections of an account
      the one 5k after the first comes at least 180k seconds after it. */
  lemma RateBoundForever(env: Env, s: State, events: seq<Event>, user: string, clock: int, k: nat)
    requires user in s.table && s.table[user].tryTimes >= 0
    requires Clocked(events, clock) && NeverAdmits(env, s, events, user)
    ensures var times := RejectTimes(env, s, events, user);
      5 * k < |times| ==> times[5 * k] - times[0] >= FREEZE_SECONDS * k
  {
    RateBound(env, s, events, user, clock);
    if 5 * k < |RejectTimes(env, s, events, user)| {
      SpacesAddUp(RejectTimes(env, s, events, user), k);
    }
  }

  // -------------------------------------------------------------------- uncounted guesses

  /** A wrong password is answered without being counted exactly if it came with a passphrase
      change, which takes a client that has the account's role. A counted one always changes
      the counter. */
  lemma UncountedGuess(env: Env, s: State, e: Event)
    requires Inv(env, s) && Step(env, s, e).1 == PasswordError
    ensures e.Login? || e.ChangePassphrase?
    ensures e.user in s.table && e.user in Step(env, s, e).0.table
    ensures Step(env, s, e).0.table[e.user].tryTimes == s.table[e.user].tryTimes <==>
            e.ChangePassphrase? && e.caller in s.clients && s.clients[e.caller].name == e.user
    ensures e.ChangePassphrase? ==> Step(env, s, e).0 == s
  {
    if e.ChangePassphrase? {
      assert GoodSession(s, s.clients[e.caller]);
    } else {
      CounterStep(env, s, e, e.user);
    }
  }

  /** The client asks to change the account's passphrase with a wrong old one. */
  ghost predicate WrongOld(env: Env, s: State, e: Event, c: string, user: string) {
    e.ChangePassphrase? && e.caller == c && e.user == user && !Verifies(env, s.table, user, e.oldCipher)
  }

  ghost function Replies(env: Env, s: State, events: seq<Event>): seq<Reply>
    decreases |events|
  {
    if events == [] then [] else [Step(env, s, events[0]).1] + Replies(env, Step(env, s, events[0]).0, events[1..])
  }

  /** There is no bound on such guesses: whether the account is frozen or the client has
      logged out, any number of them is answered, and leaves no trace. */
  lemma {:induction false} GuessesByPassphrase(env: Env, s: State, events: seq<Event>, c: string)
    requires Inv(env, s) && c in s.clients
    requires forall i :: 0 <= i < |events| ==> WrongOld(env, s, events[i], c, s.clients[c].name)
    ensures After(env, s, events) == s
    ensures Replies(env, s, events) == seq(|events|, _ => PasswordError)
    decreases |events|
  {
    if events != [] {
      assert WrongOld(env, s, events[0], c, s.clients[c].name) && GoodSession(s, s.clients[c]);
      assert Step(env, s, events[0]) == (s, PasswordError);
      GuessesByPassphrase(env, s, events[1..], c);
    }
  }

  // ------------------------------------------------------------------------- freezing

  /** What a transcript shows of one account: its logins whose password was looked at. */
  datatype Attempt = Attempt(good: bool, checked: int, noted: int)

  datatype Tally = Tally(failures: int, latest: int)

  ghost function Transcript(env: Env, s: State, events: seq<Event>, user: string): seq<Attempt>
    decreases |events|
  {
    if events == [] then []
    else
      var e := events[0];
      (if Rejects(env, s, e, user) || Admits(env, s, e, user)
       then [Attempt(Admits(env, s, e, user), e.checked, e.noted)] else [])
      + Transcript(env, Step(env, s, e).0, events[1..], user)
  }

  /** Failures since the last success, or since a freeze was last seen to have expired. */
  ghost function TallyOf(attempts: seq<Attempt>, from: Tally): Tally {
    if attempts == [] then from
    else
      var a := attempts[|attempts| - 1];
      var t := TallyOf(attempts[..|attempts| - 1], from);
      if a.good then Tally(0, 0)
      else if t.failures >= MAX_TRIES && t.latest + FREEZE_SECONDS < a.checked then Tally(1, a.noted)
      else Tally(t.failures + 1, a.noted)
  }

  lemma {:induction false} TallyInParts(first: seq<Attempt>, second: seq<Attempt>, from: Tally)
    ensures TallyOf(first + second, from) == TallyOf(second, TallyOf(first, from))
  {
    if second == [] {
      assert first + second == first;
    } else {
      var k := |second| - 1;
      assert (first + second)[..|first + second| - 1] == first + second[..k];
      TallyInParts(first, second[..k], from);
    }
  }

  /** The stored counter and time are the tally of the account's own transcript: nothing
      else that happens, frozen attempts included, leaves a trace in them. */
  lemma {:induction false} CounterIsTally(env: Env, s: State, events: seq<Event>, user: string)
    requires user in s.table
    ensures var s' := After(env, s, events);
      && user in s'.table
      && Tally(s'.table[user].tryTimes, s'.table[user].lastTryTime)
         == TallyOf(Transcript(env, s, events, user), Tally(s.table[user].tryTimes, s.table[user].lastTryTime))
    decreases |events|
  {
    if events != [] {
      var e := events[0];
      var s1 := Step(env, s, e).0;
      CounterStep(env, s, e, user);
      CounterIsTally(env, s1, events[1..], user);
      var start := Tally(s.table[user].tryTimes, s.table[user].lastTryTime);
      var rest := Transcript(env, s1, events[1..], user);
      if Rejects(env, s, e, user) || Admits(env, s, e, user) {
        var a := Attempt(Admits(env, s, e, user), e.checked, e.noted);
        TallyInParts([a], rest, start);
        assert [a][..0] == [];
        assert TallyOf([a], start) == Tally(s1.table[user].tryTimes, s1.table[user].lastTryTime);
        assert Transcript(env, s, events, user) == [a] + rest;
      } else {
        assert Transcript(env, s, events, user) == rest;
      }
    }
  }

  /** A freeze begun at time `begun` turns every login of the account away, whatever the
      password and whoever asks, until `begun` + 180, and attempts do not extend it. */
  lemma {:induction false} FreezeHolds(env: Env, s: State, events: seq<Event>, user: string, begun: int)
    requires user in s.table && s.table[user].tryTimes >= MAX_TRIES && s.table[user].lastTryTime == begun
    requires forall i :: 0 <= i < |events| && events[i].Login? && events[i].user == user ==>
               events[i].checked < begun + FREEZE_SECONDS
    ensures Transcript(env, s, events, user) == []
    ensures var row := After(env, s, events).table;
      user in row && row[user].tryTimes == s.table[user].tryTimes && row[user].lastTryTime == begun
    decreases |events|
  {
    if events != [] {
      CounterStep(env, s, events[0], user);
      FreezeHolds(env, Step(env, s, events[0]).0, events[1..], user, begun);
    }
  }

  /** For a client without a session, the freeze decides exactly the times before its end;
      from there on the password decides. Only strictly after its end is the counter reset. */
  lemma FreezeEnds(env: Env, s: State, e: Event)
    requires e.Login? && e.user in s.table && RoleFromTable(s.table, e.user) != UNKNOWN_ACCOUNT
    requires !LoggedIn(s, e.caller) && s.table[e.user].tryTimes >= MAX_TRIES
    ensures var ends := s.table[e.user].lastTryTime + FREEZE_SECONDS;
      var (s', reply) := Step(env, s, e);
      && (reply == Frozen <==> e.checked < ends)
      && (reply == Success <==> e.checked >= ends && Verifies(env, s.table, e.user, e.cipher))
      && (reply == PasswordError <==> e.checked >= ends && !Verifies(env, s.table, e.user, e.cipher))
      && (reply == PasswordError ==>
            s'.table[e.user].tryTimes == if e.checked == ends then s.table[e.user].tryTimes + 1 else 1)
  {
    var row := s.table[e.user];
    if row.lastTryTime + FREEZE_SECONDS < e.checked {
      assert Expired(row, e.checked);
    }
  }

  // ------------------------------------------------------------------------- passwords

  /** A passphrase change succeeds exactly for a client holding the account's role that knows
      the old password and offers a different one meeting the policy. Then the new password
      verifies, the old one no longer does, and no other row, no counter and no session has
      changed; otherwise nothing has. */
  lemma ChangePassphraseMeans(env: Env, s: State, e: Event, cipher: string)
    requires AesRoundTrip(env) && Inv(env, s) && e.ChangePassphrase?
    ensures var (s', reply) := Step(env, s, e);
      && (reply == Success <==>
            && e.caller in s.clients && s.clients[e.caller].name == e.user
            && Verifies(env, s.table, e.user, e.oldCipher)
            && Check(env.rsaDecrypt(e.newCipher), e.user, env.fold)
            && env.rsaDecrypt(e.newCipher) != env.rsaDecrypt(e.oldCipher))
      && (reply == Success ==>
            && e.user in s'.table
            && (Verifies(env, s'.table, e.user, cipher) <==> env.rsaDecrypt(cipher) == env.rsaDecrypt(e.newCipher))
            && !Verifies(env, s'.table, e.user, e.oldCipher)
            && s' == s.(table := s.table[e.user := s.table[e.user].(passwd := s'.table[e.user].passwd)]))
      && (reply != Success ==> s' == s)
  {
  }

  /** The event is a passphrase change for user by a client holding that account's role. */
  ghost predicate ChangesPassword(env: Env, s: State, e: Event, user: string) {
    && e.ChangePassphrase? && e.user == user && Step(env, s, e).1 == Success
    && e.caller in s.clients && s.clients[e.caller].name == user
  }

  lemma OnlyChangePassphraseChanges(env: Env, s: State, e: Event, user: string)
    requires user in s.table
    ensures user in Step(env, s, e).0.table
    ensures Step(env, s, e).0.table[user].passwd != s.table[user].passwd ==>
              e.ChangePassphrase? && e.user == user && Step(env, s, e).1 == Success
  {
  }

  lemma PasswordStep(env: Env, s: State, e: Event, user: string)
    requires AesRoundTrip(env) && Inv(env, s) && user in s.table
    ensures user in Step(env, s, e).0.table
    ensures Step(env, s, e).0.table[user].passwd != s.table[user].passwd ==> ChangesPassword(env, s, e, user)
  {
    OnlyChangePassphraseChanges(env, s, e, user);
    if Step(env, s, e).0.table[user].passwd != s.table[user].passwd {
      ChangePassphraseMeans(env, s, e, "");
    }
  }

  /** If a stored password differs after a run, somewhere in the run a client holding the
      account's role changed it. */
  lemma {:induction false} PasswordChangesAreAuthorised(env: Env, s: State, events: seq<Event>, user: string)
    returns (i: nat)
    requires AesRoundTrip(env) && Inv(env, s) && user in s.table
    requires user in After(env, s, events).table ==> After(env, s, events).table[user].passwd != s.table[user].passwd
    ensures i < |events| && ChangesPassword(env, After(env, s, events[..i]), events[i], user)
    decreases |events|
  {
    var e := events[0];
    var s' := Step(env, s, e).0;
    assert events[..0] == [];
    InvStep(env, s, e);
    PasswordStep(env, s, e, user);
    if ChangesPassword(env, s, e, user) {
      i := 0;
    } else {
      var k := PasswordChangesAreAuthorised(env, s', events[1..], user);
      i := k + 1;
      assert events[..i][0] == e && events[..i][1..] == events[1..][..k];
    }
  }

  /** A ciphertext that does not decrypt reads as the empty text, and logs no one in. */
  lemma UndecryptableNeverVerifies(env: Env, s: State, user: string, cipher: string)
    requires Inv(env, s) && env.rsaDecrypt(cipher) == ""
    ensures !Verifies(env, s.table, user, cipher)
  {
    AcceptedMeans("");
  }

  // ------------------------------------------------------------- what a session depends on

  /** Some login of client c in the run succeeded and no event of `enders` came after it. */
  ghost predicate Stands(env: Env, s: State, events: seq<Event>, c: string, enders: set<Event>)
    decreases |events|
  {
    events != [] &&
    var e := events[0];
    || (LogsIn(env, s, e, c) && Untouched(events[1..], enders))
    || Stands(env, Step(env, s, e).0, events[1..], c, enders)
  }

  ghost predicate Untouched(events: seq<Event>, enders: set<Event>) {
    forall i :: 0 <= i < |events| ==> events[i] !in enders
  }

  ghost predicate LogsIn(env: Env, s: State, e: Event, c: string) {
    e.Login? && e.caller == c && Step(env, s, e).1 == Success
  }

  /** What one event does to the entry of client c. */
  lemma ClientStep(env: Env, s: State, e: Event, c: string)
    requires !LogsIn(env, s, e, c)
    ensures var s' := Step(env, s, e).0;
      && (c in s'.clients <==> c in s.clients && e != ServiceUnregistered(c))
      && (c in s'.clients ==>
            && s'.clients[c].role == s.clients[c].role
            && (e != Logout(c) ==> s'.clients[c] == s.clients[c])
            && (e == Logout(c) && s.clients[c].role != UNKNOWN_ACCOUNT ==> !s'.clients[c].isLogin))
  {
  }

  lemma RoleStep(env: Env, s: State, e: Event, c: string)
    requires TableInv(s.table) && SessionInv(s)
    ensures RoleOf(Step(env, s, e).0, c) != UNKNOWN_ACCOUNT <==>
              LogsIn(env, s, e, c) || (RoleOf(s, c) != UNKNOWN_ACCOUNT && e != ServiceUnregistered(c))
    ensures LoggedIn(Step(env, s, e).0, c) <==>
              LogsIn(env, s, e, c) || (LoggedIn(s, c) && e !in {Logout(c), ServiceUnregistered(c)})
  {
    if LogsIn(env, s, e, c) {
      NewSessionIsGood(env, s, e);
    } else {
      ClientStep(env, s, e, c);
      if c in s.clients {
        assert GoodSession(s, s.clients[c]);
      }
    }
  }

  lemma {:induction false} RoleStandsUntil(env: Env, s: State, events: seq<Event>, c: string, gone: set<Event>)
    requires AesRoundTrip(env) && Inv(env, s) && gone == {ServiceUnregistered(c)}
    ensures RoleOf(After(env, s, events), c) != UNKNOWN_ACCOUNT <==>
              Stands(env, s, events, c, gone) || (RoleOf(s, c) != UNKNOWN_ACCOUNT && Untouched(events, gone))
    decreases |events|
  {
    if events != [] {
      var e, rest := events[0], events[1..];
      var s' := Step(env, s, e).0;
      assert After(env, s, events) == After(env, s', rest);
      hide *;
      assert RoleOf(s', c) != UNKNOWN_ACCOUNT <==>
             LogsIn(env, s, e, c) || (RoleOf(s, c) != UNKNOWN_ACCOUNT && e !in gone) by {
        RoleAfter(env, s, e, c);
      }
      InvStep(env, s, e);
      StandsSplits(env, s, events, c, gone);
      RoleStandsUntil(env, s', rest, c, gone);
      UntouchedSplits(events, gone);
      Splits(RoleOf(s', c) != UNKNOWN_ACCOUNT, RoleOf(s, c) != UNKNOWN_ACCOUNT, LogsIn(env, s, e, c), e !in gone,
             Untouched(rest, gone), Stands(env, s', rest, c, gone));
    }
  }

  lemma {:induction false} LoginStandsUntil(env: Env, s: State, events: seq<Event>, c: string, away: set<Event>)
    requires AesRoundTrip(env) && Inv(env, s) && away == {Logout(c), ServiceUnregistered(c)}
    ensures LoggedIn(After(env, s, events), c) <==>
              Stands(env, s, events, c, away) || (LoggedIn(s, c) && Untouched(events, away))
    decreases |events|
  {
    if events != [] {
      var e, rest := events[0], events[1..];
      var s' := Step(env, s, e).0;
      assert After(env, s, events) == After(env, s', rest);
      hide *;
      assert LoggedIn(s', c) <==> LogsIn(env, s, e, c) || (LoggedIn(s, c) && e !in away) by {
        RoleAfter(env, s, e, c);
      }
      InvStep(env, s, e);
      StandsSplits(env, s, events, c, away);
      LoginStandsUntil(env, s', rest, c, away);
      UntouchedSplits(events, away);
      Splits(LoggedIn(s', c), LoggedIn(s, c), LogsIn(env, s, e, c), e !in away,
             Untouched(rest, away), Stands(env, s', rest, c, away));
    }
  }

  lemma Splits(next: bool, now: bool, starts: bool, keeps: bool, untouched: bool, stands: bool)
    requires next <==> starts || (now && keeps)
    ensures stands || (next && untouched) <==> ((starts && untouched) || stands) || (now && keeps && untouched)
  {
  }

  lemma RoleAfter(env: Env, s: State, e: Event, c: string)
    requires Inv(env, s)
    ensures RoleOf(Step(env, s, e).0, c) != UNKNOWN_ACCOUNT <==>
              LogsIn(env, s, e, c) || (RoleOf(s, c) != UNKNOWN_ACCOUNT && e !in {ServiceUnregistered(c)})
    ensures LoggedIn(Step(env, s, e).0, c) <==>
              LogsIn(env, s, e, c) || (LoggedIn(s, c) && e !in {Logout(c), ServiceUnregistered(c)})
  {
    hide *;
    InvMeansSessions(env, s);
    RoleStep(env, s, e, c);
  }

  lemma InvMeansSessions(env: Env, s: State)
    requires Inv(env, s)
    ensures TableInv(s.table) && SessionInv(s)
  {
  }

  /** A client has a role exactly if one of its logins succeeded and it has not disconnected
      since; it counts as logged in exactly if, moreover, it has not logged out since. */
  lemma RoleLastsUntilDisconnect(env: Env, s: State, events: seq<Event>, c: string)
    requires AesRoundTrip(env) && Inv(env, s)
    ensures RoleOf(After(env, s, events), c) != UNKNOWN_ACCOUNT <==>
              || Stands(env, s, events, c, {ServiceUnregistered(c)})
              || (RoleOf(s, c) != UNKNOWN_ACCOUNT && Untouched(events, {ServiceUnregistered(c)}))
    ensures LoggedIn(After(env, s, events), c) <==>
              || Stands(env, s, events, c, {Logout(c), ServiceUnregistered(c)})
              || (LoggedIn(s, c) && Untouched(events, {Logout(c), ServiceUnregistered(c)}))
  {
    hide *;
    RoleStandsUntil(env, s, events, c, {ServiceUnregistered(c)});
    LoginStandsUntil(env, s, events, c, {Logout(c), ServiceUnregistered(c)});
  }

  lemma StandsSplits(env: Env, s: State, events: seq<Event>, c: string, enders: set<Event>)
    requires events != []
    ensures Stands(env, s, events, c, enders) <==>
              || (LogsIn(env, s, events[0], c) && Untouched(events[1..], enders))
              || Stands(env, Step(env, s, events[0]).0, events[1..], c, enders)
  {
  }

  lemma UntouchedSplits(events: seq<Event>, enders: set<Event>)
    requires events != []
    ensures Untouched(events, enders) <==> events[0] !in enders && Untouched(events[1..], enders)
  {
    assert events == [events[0]] + events[1..];
  }

  /** After a logout the client may still change the passphrase and the reuse of user ids. */
  lemma LogoutKeepsTheRole(env: Env, s: State, c: string, oldCipher: string, newCipher: string, enabled: bool)
    requires Inv(env, s) && LoggedIn(s, c)
    ensures var out := After(env, s, [Logout(c)]);
      var user := s.clients[c].name;
      && !LoggedIn(out, c)
      && Step(env, out, SetUidReusable(c, enabled)) == (out.(uidReusable := enabled), Success)
      && (Verifies(env, s.table, user, oldCipher) && Check(env.rsaDecrypt(newCipher), user, env.fold)
            && env.rsaDecrypt(newCipher) != env.rsaDecrypt(oldCipher) ==>
          Step(env, out, ChangePassphrase(c, user, oldCipher, newCipher)).1 == Success)
  {
    assert GoodSession(s, s.clients[c]);
    assert After(env, s, [Logout(c)]) == Step(env, s, Logout(c)).0;
  }

  /** If the switch for reusing user ids stands differently after a run, somewhere in the run
      a client with a role set it to what it now is. */
  lemma {:induction false} UidSwitchNeedsARole(env: Env, s: State, events: seq<Event>) returns (i: nat)
    requires After(env, s, events).uidReusable != s.uidReusable
    ensures i < |events| && events[i].SetUidReusable?
    ensures events[i].enabled == After(env, s, events).uidReusable
    ensures RoleOf(After(env, s, events[..i]), events[i].caller) != UNKNOWN_ACCOUNT
    decreases |events|
  {
    var e := events[0];
    var s' := Step(env, s, e).0;
    assert events[..0] == [];
    if s'.uidReusable != s.uidReusable {
      i := 0;
    } else {
      var k := UidSwitchNeedsARole(env, s', events[1..]);
      i := k + 1;
      assert events[..i][0] == e && events[..i][1..] == events[1..][..k];
    }
  }

  function Guess(t: int): Event {
    Login(":1.1", 1, "sysadm", "", t, t)
  }

  /** The bound of 180 seconds is reached: five wrong guesses at once and a sixth exactly
      when the freeze ends are all looked at. */
  lemma RateBoundIsTight(env: Env, s: State)
    requires "sysadm" in s.table && s.table["sysadm"].role == "sysadm" && s.table["sysadm"].tryTimes == 0
    requires s.clients == map[] && env.rsaDecrypt("") != env.aesDecrypt(s.table["sysadm"].passwd)
    ensures RejectTimes(env, s, [Guess(1), Guess(1), Guess(1), Guess(1), Guess(1), Guess(181)], "sysadm")
         == [1, 1, 1, 1, 1, 181]
  {
  }
}

module AccountManager {
  import opened PasswordPolicy
  import opened Accounts

  class Manager {
    const env: Env
    var table: map<string, Row>          // the userInfo table
    var clients: map<string, Session>
    var watched: set<string>
    var uidReusable: bool

    ghost function View(): State
      reads this
    {
      State(table, clients, watched, uidReusable)
    }

    constructor (env: Env, reusable: bool)
      ensures this.env == env && View() == State(InitialTable(env), map[], {}, reusable)
    {
      this.env := env;
      table, clients, watched, uidReusable := map[], map[], {}, reusable;
      new;
      InitUserInfoTable();
    }

    method InitUserInfoTable()
      modifies this
      requires table == map[]
      ensures View() == old(View()).(table := InitialTable(env))
    {
      for i := 0 to |KEYS|
        invariant View() == old(View()).(table := table)
        invariant table == map name | name in KEYS[..i] :: Row(name, env.aesEncrypt(INITIAL_PASSWORD), 0, 0)
      {
        var encrypted := env.aesEncrypt(INITIAL_PASSWORD);
        table := table[KEYS[i] := Row(KEYS[i], encrypted, 0, 0)];
      }
      assert KEYS[..|KEYS|] == KEYS;
    }

    method VerifyPassword(user: string, cipher: string) returns (ok: bool)
      ensures ok == Verifies(env, table, user, cipher)
    {
      if user !in table {
        return false;
      }
      var decrypted := env.rsaDecrypt(cipher);
      var current := env.aesDecrypt(table[user].passwd);
      return decrypted == current;
    }

    method ResetFreezeInfo(user: string)
      modifies this`table
      ensures table == if user in old(table) then old(table)[user := Cleared(old(table)[user])] else old(table)
    {
      if user in table {
        table := table[user := table[user].(tryTimes := 0, lastTryTime := 0)];
      }
    }

    method UpdateFreezeInfo(user: string, now: int)
      modifies this`table
      ensures table == if user in old(table) then old(table)[user := Failed(old(table)[user], now)] else old(table)
    {
      if user in table {
        table := table[user := table[user].(tryTimes := table[user].tryTimes + 1, lastTryTime := now)];
      }
    }

    /** True if the account is frozen, or unknown; an expired freeze is forgotten on the way. */
    method IsFreeze(user: string, now: int) returns (frozen: bool)
      modifies this`table
      ensures frozen == (user in old(table) ==> IsFrozen(old(table)[user], now))
      ensures table == if user in old(table) then old(table)[user := Thawed(old(table)[user], now)] else old(table)
    {
      if user !in table {
        return true;
      }
      var tries, last := table[user].tryTimes, table[user].lastTryTime;
      if tries >= MAX_TRIES && last + FREEZE_SECONDS < now {
        ResetFreezeInfo(user);
        return false;
      }
      return tries >= MAX_TRIES && last + FREEZE_SECONDS > now;
    }

    method DoLogin(caller: string, pid: int, user: string, cipher: string, checked: int, noted: int)
      returns (reply: Reply)
      modifies this
      ensures (View(), reply) == Step(env, old(View()), Login(caller, pid, user, cipher, checked, noted))
    {
      var role := RoleFromTable(table, user);
      if role == UNKNOWN_ACCOUNT {
        return UnknownAccount;
      }
      watched := watched + {caller};
      if caller in clients && clients[caller].isLogin {
        return AlreadyLoggedIn;
      }
      var frozen := IsFreeze(user, checked);
      if frozen {
        assert table == old(table);
        return Frozen;
      }
      var verified := VerifyPassword(user, cipher);
      if !verified {
        UpdateFreezeInfo(user, noted);
        assert table == old(table)[user := Failed(Thawed(old(table)[user], checked), noted)];
        return PasswordError;
      }
      ResetFreezeInfo(user);
      assert table == old(table)[user := Cleared(old(table)[user])];
      clients := clients[caller := Session(true, role, user, pid)];
      return Success;
    }

    method DoLogout(caller: string) returns (reply: Reply)
      modifies this
      ensures (View(), reply) == Step(env, old(View()), Logout(caller))
    {
      if caller !in clients || clients[caller].role == UNKNOWN_ACCOUNT {
        return UnknownAccount;
      }
      if !clients[caller].isLogin {
        return NotLoggedIn;
      }
      clients := clients[caller := clients[caller].(isLogin := false)];
      return Success;
    }

    method DoChangePassphrase(caller: string, user: string, oldCipher: string, newCipher: string) returns (reply: Reply)
      modifies this
      ensures (View(), reply) == Step(env, old(View()), ChangePassphrase(caller, user, oldCipher, newCipher))
    {
      var role := RoleOf(State(table, clients, watched, uidReusable), caller);
      if role == UNKNOWN_ACCOUNT || user != ValueToKey(role) {
        return PermissionDenied;
      }
      var verified := VerifyPassword(user, oldCipher);
      if !verified {
        return PasswordError;
      }
      if !Check(env.rsaDecrypt(newCipher), user, env.fold) {
        return PasswordRejected;
      }
      if env.rsaDecrypt(oldCipher) == env.rsaDecrypt(newCipher) {
        return SamePassword;
      }
      table := table[user := table[user].(passwd := env.aesEncrypt(env.rsaDecrypt(newCipher)))];
      return Success;
    }

    method DoSetUidReusable(caller: string, enabled: bool) returns (reply: Reply)
      modifies this
      ensures (View(), reply) == Step(env, old(View()), SetUidReusable(caller, enabled))
    {
      if RoleOf(State(table, clients, watched, uidReusable), caller) == UNKNOWN_ACCOUNT {
        return PermissionDenied;
      }
      uidReusable := enabled;
      return Success;
    }

    method OnServiceUnregistered(caller: string)
      modifies this
      ensures View() == Step(env, old(View()), ServiceUnregistered(caller)).0
    {
      watched := watched - {caller};
      if caller !in clients {
        return;
      }
      clients := clients - {caller};
    }
  }
}
