# Proofs about the core of ks-ssr

This project models the parts of the ks-ssr daemon that hold state machines, protocols and text
transformations, and proves what they guarantee over every input and every run; where a user name
reaches the user table, over every name without a single quote (see Left out).

* `thread_pool.dfy` – the worker pool. `PoolProtocol` is a transition system over any number of
  workers and clients: every block that runs under `queue_mutex_` is one step, and sleeping
  workers and callers that still owe a notify are explicit, so a lost wakeup could be expressed.
  Spurious wakeups may happen at any time. `WorkerPool.ThreadPool` has the fields and locked
  blocks as a class, each method tied to its step. The last three fields of a `Pool` only record
  the past; no step reads them.
* `account_manager.dfy`, `password_policy.dfy` – login, logout, freezing, sessions and
  passphrases. `Accounts` has each D-Bus call as one step on the user table, the session map and
  the watched names; `AccountManager.Manager` is the class whose methods perform the steps.
  `PasswordPolicy` gives the regular expression its PCRE meaning and says what it accepts.
* `locked_file.dfy` – files under advisory locks. `FileProtocol` interleaves any number of
  processes that open, lock, truncate, write and read piece by piece, fail, and unlock; every
  completed access leaves a log entry. `LockedFile.Machine` has the program's functions as
  methods, each a sequence of protocol steps; its `trace` proves that.
* `str_utils.dfy` – the loops of `splitLines`, `splitWithChar` and `intersect`, proved against
  recursive definitions, and the laws of those definitions.
* `text_encoding.dfy` – text as bytes: UTF-8, and reading it back.
* `envelope.dfy` – the signed envelope of `brEncrypt` and `brDecrypt`, built on the splitter.
* `patterns.dfy`, `rewriting.dfy`, `cutting.dfy`, `system_auth.dfy`, `system_auth_texts.dfy`,
  `kiran_auth.dfy`, `kiran_failing.dfy`, `kiran_texts.dfy`, `pam_toggle.dfy` – switching
  multi-factor authentication: the small part of regular expressions it uses, replacing matches and
  occurrences in general, the two text rewritings, and both files together.

Results a reader would not get from one function alone:

* No wakeup of the pool is ever lost, every accepted task is always in exactly one place,
  shutdown drains the pool, and no schedule lets the workers spin: the pool's own steps are paid
  for by what clients ask of it.
* Login rejections of one account for a wrong password are rationed to five in any 180 seconds,
  from any counter value and over any run without a successful login; the bound is exact.
* The log of a locked file is the history of an atomic register, modifications are never lost,
  and some process can always move.
* Enabling and disabling multi-factor authentication: for every system-auth text, when it can be
  enabled, what that makes, and exactly when disabling restores it; for every
  kiran-authentication-service text, exactly when switching it fails and when writing the new text
  over the file without truncation is right; with one match of each line in it, exactly when going
  back restores it; for both files, exactly when one is left switched and the other not.

Where the code does something other than it seems meant to, the model follows the code, the
exact condition is proved, and a lemma shows an input:

* `$` in the password expression matches before a final newline, so one trailing newline is let
  through uncounted, also above 16 characters (`PasswordPolicy.AcceptedMeans`,
  `SeventeenWithANewline`).
* `writeContents` writes `length()` bytes of the encoded text; the text arrives whole if and only
  if it is ASCII (`FileProtocol.PayloadIsWholeTextIffAscii`, `AccentIsCut`).
* Wrong old passphrases given to `ChangePassphrase` are wrong guesses that no counter sees, even
  while the account is frozen; that takes a client which has the account's role
  (`Accounts.UncountedGuess`, `GuessesByPassphrase`).
* After a logout a client keeps its role, and with it may change the passphrase and the reuse of
  user ids, until it disconnects (`Accounts.RoleLastsUntilDisconnect`, `LogoutKeepsTheRole`).
* Enabling and disabling does not give back a system-auth text in which two matches of an anchor
  differ, such as by a blank (`SystemAuth.SystemRoundTrip`, `SystemAuthTexts.UnevenIsNotRestored`).
* The second file is written over without being cut. Stale bytes stay at its end if what stood
  in front of the two lines takes more bytes than the '#' put in, such as "# " or one accented
  letter (`KiranAuth.EnableThenDisable`, `KiranFailing.EnableKiranWritesExactly`,
  `KiranTexts.NotCovered`).
* If the second file cannot be switched, on or off, the first stays switched. When that happens is
  stated on the texts (`PamToggle.EnablingHalfway`, `DisablingHalfway`), with files for both
  (`HalfEnablingHappens`, `HalfDisablingHappens`), and so is what the next call makes of it
  (`AfterHalfEnabling`, `AfterHalfDisabling`).
* Nobody looks at how the writing of these two files goes, so a file can be left cut and the switch
  be reported as done (`PamToggle.WritingIsNotReported`, `CutUnnoticed`).
* `splitLines` undoes joining unless a CR line comes before an empty LF line
  (`StrUtils.SplitUndoesJoin`, `TwoLinesBecomeOne`).
* A pool of no threads never runs a task given to it (`PoolProtocol.ShutdownDrains`,
  `TaskLeftBehind`).

## Model

| member | source | states |
|---|---|---|
| PoolProtocol.InvStep | lib/base/thread-pool.cpp:29-63 | every step of a worker, a client or the destructor keeps all the invariants below |
| PoolProtocol.InvRun | lib/base/thread-pool.cpp:19-66 | they hold in every state of every run, for any number of workers, whose number never changes |
| PoolProtocol.AcceptedIsAsked | lib/base/thread-pool.h:65-110 | of the calls alone it follows which tasks there are: every call before stop is accepted, in order, for the queue it asks for, and no other |
| PoolProtocol.TurnMeans | lib/base/thread-pool.cpp:36-57 | a worker that looks at the queues runs a task exactly if its own or the shared queue holds one, leaves exactly if neither does and the pool is stopping, waits exactly otherwise, and no other worker changes |
| PoolProtocol.SleepersStep | lib/base/thread-pool.cpp:36-41 | who sleeps after each step: notify_one wakes one, notify_all everyone, and only a worker that found nothing to do falls asleep |
| PoolProtocol.NoLostWakeupStep | lib/base/thread-pool.cpp:36-57 | each step keeps: a sleeper's own task is owed a notify_all; while anyone sleeps, shared tasks are matched by notify_one calls owed and workers still awake; a sleeper in a stopping pool is owed the destructor's notify_all |
| PoolProtocol.NoLostWakeupEver | lib/base/thread-pool.h:65-119 | in every reachable state: no sleeper has a task of its own without a notify_all pending, with every live worker asleep at least as many notify_one are pending as there are shared tasks, and nobody sleeps after stop unless the broadcast is pending |
| PoolProtocol.PlacesStep | lib/base/thread-pool.cpp:43-62 | a step moves a task between shared queue, own queues, workers and finished without losing or doubling it; only an accepting enqueue adds one, in one place |
| PoolProtocol.ExactlyOnceEver | lib/base/thread-pool.h:65-110 | in every reachable state every accepted task is in exactly one place, once, and no other task is anywhere |
| PoolProtocol.ExitsAreFinalStep | lib/base/thread-pool.cpp:48-56 | a worker has left only if stop is set and its own queue and the shared queue are empty, and they stay empty; only workers that left are joined |
| PoolProtocol.ShutdownDrains | lib/base/thread-pool.h:113-124 | when the destructor has joined every thread, every accepted task has finished exactly once, if and only if there was a thread or nothing was accepted |
| PoolProtocol.TaskLeftBehind | lib/base/thread-pool.h:113-124 | a run of a pool without threads that is stopped and joined with its one accepted task still queued |
| PoolProtocol.AcceptedForIsSorted | lib/base/thread-pool.h:81-105 | the tasks of a route are exactly those accepted for it, in order of acceptance |
| PoolProtocol.ServedInOrder | lib/base/thread-pool.cpp:43-52 | what was claimed from any queue is, in order, the first part of what was put into it, and the queue holds the rest in order |
| PoolProtocol.IndexedTaskStaysOnItsWorker | lib/base/thread-pool.h:87-110 | a task given by index is claimed and run only by worker idx modulo the number of threads, whatever happens later |
| PoolProtocol.OwnTasksFirst | lib/base/thread-pool.cpp:43-52 | a worker that takes a shared task or leaves has already claimed every task ever accepted for it |
| PoolProtocol.WorkStep | lib/base/thread-pool.cpp:29-63 | each step the pool takes on its own uses up work; each outside event adds at most its credit |
| PoolProtocol.InternalStepsAreBounded | lib/base/thread-pool.cpp:29-63 | over any run the pool's own steps and the work left are at most the work at the start and the credits of the outside events |
| PoolProtocol.QuiescentMeansDone | lib/base/thread-pool.cpp:36-57 | a pool of at least one thread that can do nothing on its own has finished every accepted task once, and if stopped, all threads have left and are joined |
| PoolProtocol.StoppedStepsAreBounded | lib/base/thread-pool.h:65-124 | a stopped pool refuses all calls: over any run its own steps and the work left are at most the work at the start and one for each spurious wakeup |
| PoolProtocol.ShutdownEnds | lib/base/thread-pool.h:113-124 | after stop, in every run, clients still calling and threads waking for no reason included: the pool's own steps are bounded by the work left at stop and one for each spurious wakeup, nothing more is accepted, a step of its own is possible until all threads are joined, and then all tasks have finished |
| WorkerPool.ThreadPool.constructor | lib/base/thread-pool.cpp:19-66 | starts the initial state of the protocol with that many threads |
| WorkerPool.ThreadPool.Enqueue | lib/base/thread-pool.h:65-85 | refuses when stopped, otherwise the task is last in the shared queue and a notify_one is owed |
| WorkerPool.ThreadPool.EnqueueByIdx | lib/base/thread-pool.h:87-110 | refuses when stopped, otherwise the task is last in the queue of worker idx modulo the number of threads and a notify_all is owed |
| WorkerPool.ThreadPool.NotifyOne | lib/base/thread-pool.h:84 | wakes one sleeper if there is one |
| WorkerPool.ThreadPool.NotifyAll | lib/base/thread-pool.h:109 | wakes every sleeper and no one else |
| WorkerPool.ThreadPool.Turn | lib/base/thread-pool.cpp:34-57 | one pass through the locked block: waits, claims own before shared, or leaves, as the protocol step says |
| WorkerPool.ThreadPool.Finish | lib/base/thread-pool.cpp:59-62 | the worker's task is finished and the worker goes round again |
| WorkerPool.ThreadPool.SetStop | lib/base/thread-pool.h:113-118 | the destructor's locked block |
| WorkerPool.ThreadPool.Broadcast | lib/base/thread-pool.h:119 | the destructor's notify_all |
| WorkerPool.ThreadPool.JoinNext | lib/base/thread-pool.h:120-123 | one join, of a thread that has left |
| PasswordPolicy.AcceptedMeans | src/daemon/account/manager.cpp:300-308 | the expression with its four lookaheads accepts a text exactly if, without the one newline that may end it, it has 8 to 16 characters, no newline and two of the four classes |
| PasswordPolicy.IntendedRuleHoldsWithoutFinalNewline | src/daemon/account/manager.cpp:300-308 | the code enforces the intended rule exactly unless the text is a well-formed password with a newline added |
| PasswordPolicy.CheckMeans | src/daemon/account/manager.cpp:300-308 | a password passes exactly if it meets the rule, its final newline aside, and no part of it is the user name in any letter case |
| PasswordPolicy.RefusedForTheName | src/daemon/account/manager.cpp:300-308 | passwords that meet the rule and are refused for the name, however its letters are written |
| PasswordPolicy.NamesAreRefused | src/daemon/account/manager.cpp:300-308 | one refused password for each name |
| PasswordPolicy.SeventeenWithANewline | src/daemon/account/manager.cpp:300-308 | a text of 17 characters that is accepted although it breaks the intended rule |
| PasswordPolicy.InitialPasswordPasses | src/daemon/account/manager.cpp:546-566 | the initial password passes the check for every account name |
| Accounts.InitialInv | src/daemon/account/manager.cpp:546-566 | a fresh database satisfies the account invariants |
| Accounts.InvStep | src/daemon/account/manager.cpp:407-515 | every call keeps them |
| Accounts.InvRun | src/daemon/account/manager.cpp:407-515 | over every run the table has exactly one row for each role key, every session matches its row with a real role and is watched, and every stored password meets the policy |
| Accounts.SessionInvStep | src/daemon/account/manager.cpp:449-515 | every call, and the end of a client, keeps: a session's name is a row whose role is the session's role, never unknown_account, and its client is watched |
| Accounts.SessionIsStable | src/daemon/account/manager.cpp:449-515 | the session of a logged in client changes in nothing until its logout or its disconnection |
| Accounts.SessionIsOfLatestLogin | src/daemon/account/manager.cpp:449-515 | after any run a client's session has the name, role and process of its latest successful login, which no disconnection followed, or is the one it had before |
| Accounts.LoginReplies | src/daemon/account/manager.cpp:449-494 | every reply of Login under its exact condition: a real name, no live session, no freeze, the right password |
| Accounts.LoginLeaves | src/daemon/account/manager.cpp:449-494 | what Login leaves behind with each reply; after a success exactly the caller's session is that of the account with its role, and its count starts again |
| Accounts.LogoutMeans | src/daemon/account/manager.cpp:496-515 | every reply of Logout under its exact condition; only the flag of the caller's session changes |
| Accounts.SetUidReusableMeans | src/daemon/account/manager.cpp:126-139 | exactly a client with a session sets the switch, and nothing else |
| Accounts.DisconnectMeans | src/daemon/account/manager.cpp:92-103 | a client that goes takes its session and watch along, and nothing else |
| Accounts.CounterStep | src/daemon/account/manager.cpp:470-487 | only a rejected and a successful login of an account that is not frozen change its counter and time, and how |
| Accounts.RateBound | src/daemon/account/manager.cpp:470-487 | any six consecutive login rejections of an account for a wrong password, without a successful login of it between, span at least 180 seconds, from any counter value and in any run |
| Accounts.RateBoundForever | src/daemon/account/manager.cpp:614-656 | so in any such run the login rejection 5k after the first comes at least 180k seconds after it |
| Accounts.UncountedGuess | src/daemon/account/manager.cpp:407-447 | a wrong password is answered without touching the counter exactly if it came with a passphrase change by a client that has a session of the account |
| Accounts.GuessesByPassphrase | src/daemon/account/manager.cpp:424-431 | any number of such changes with a wrong old passphrase, frozen account or logged out client or not, is answered with a password error each and leaves the state as it was |
| Accounts.RateBoundIsTight | src/daemon/account/manager.cpp:632-642 | six rejections in exactly 180 seconds do happen |
| Accounts.CounterIsTally | src/daemon/account/manager.cpp:614-668 | the stored counter and time equal, after any run, the fold of the account's own judged attempts: failures since the last success or expiry, and the time of the latest |
| Accounts.FreezeHolds | src/daemon/account/manager.cpp:614-643 | a freeze begun at T turns away every attempt before T + 180 over any run, and such attempts neither extend it nor change the counter |
| Accounts.FreezeEnds | src/daemon/account/manager.cpp:632-642 | exactly the times before T + 180 are blocked; at T + 180 the password decides but a failure counts on, after it the count starts again |
| Accounts.ChangePassphraseMeans | src/daemon/account/manager.cpp:407-447 | succeeds exactly for a client with a session of that account, the right old password and a different new one meeting the policy; then exactly the new password verifies, the old one does not, and no other row, counter or session changed; otherwise nothing changed |
| Accounts.PassphraseReplies | src/daemon/account/manager.cpp:407-447 | every reply of ChangePassphrase under its exact condition, in terms of the passwords and the name alone |
| Accounts.InitialPasswordWorks | src/daemon/account/manager.cpp:546-591 | at first the initial password, and no other, opens every account |
| Accounts.PasswordChangesAreAuthorised | src/daemon/account/manager.cpp:407-447 | if a stored password differs after a run, some event of it was a successful change by a client with a session of that account |
| Accounts.UndecryptableNeverVerifies | src/daemon/account/manager.cpp:568-591 | a ciphertext that decrypts to the empty text matches no stored password |
| Accounts.RoleLastsUntilDisconnect | src/daemon/account/manager.cpp:449-515 | after any run a client has a role exactly if a login of it succeeded, or it had one, and it has not disconnected since; it is logged in exactly if moreover it has not logged out since |
| Accounts.LogoutKeepsTheRole | src/daemon/account/manager.cpp:496-515 | after its logout a client is not logged in, sets the reuse of user ids, and changes the passphrase if it knows the old one |
| Accounts.UidSwitchNeedsARole | src/daemon/account/manager.cpp:126-139 | if the reuse of user ids stands differently after a run, a client with a role set it so |
| AccountManager.Manager.constructor | src/daemon/account/manager.cpp:64-104 | starts with the initial table, no sessions and nothing watched |
| AccountManager.Manager.InitUserInfoTable | src/daemon/account/manager.cpp:546-566 | one row for each role key with the encrypted initial password and no failures |
| AccountManager.Manager.VerifyPassword | src/daemon/account/manager.cpp:568-591 | true exactly if the account exists and the decrypted texts agree |
| AccountManager.Manager.ResetFreezeInfo | src/daemon/account/manager.cpp:658-668 | the row's counter and time become zero, nothing else changes |
| AccountManager.Manager.UpdateFreezeInfo | src/daemon/account/manager.cpp:645-656 | the row's counter grows by one and its time becomes now, nothing else changes |
| AccountManager.Manager.IsFreeze | src/daemon/account/manager.cpp:614-643 | true for an unknown account or five failures less than 180 seconds old; a freeze that is over is forgotten, nothing else changes |
| AccountManager.Manager.DoLogin | src/daemon/account/manager.cpp:449-494 | new state and reply are those of the login step |
| AccountManager.Manager.DoLogout | src/daemon/account/manager.cpp:496-515 | new state and reply are those of the logout step |
| AccountManager.Manager.DoChangePassphrase | src/daemon/account/manager.cpp:407-447 | new state and reply are those of the passphrase step |
| AccountManager.Manager.DoSetUidReusable | src/daemon/account/manager.cpp:126-139 | refused without a role, otherwise the switch is set and nothing else |
| AccountManager.Manager.OnServiceUnregistered | src/daemon/account/manager.cpp:92-103 | the client's session and watch are gone, all others stay |
| FileProtocol.EncodedIsLongEnough | lib/base/file-utils.cpp:60-89 | a text has at most as many UTF-16 units as encoded bytes, and as many exactly if it is ASCII |
| FileProtocol.UnitsAppend | lib/base/file-utils.cpp:77 | the length of a text in UTF-16 units adds up over its parts |
| FileProtocol.UnitsOfOne | lib/base/file-utils.cpp:77 | a character counts once, or twice from 0x10000 on |
| FileProtocol.PayloadIsCut | lib/base/file-utils.cpp:77 | what is handed over is the first bytes of the encoded text, as many as the text has UTF-16 units |
| FileProtocol.PayloadIsWholeTextIffAscii | lib/base/file-utils.cpp:60-89 | what writeContents hands over is the whole encoded text exactly if the text is ASCII |
| FileProtocol.AccentIsCut | lib/base/file-utils.cpp:60-89 | one accented letter is handed over as half of its two bytes |
| FileProtocol.GrantsMeans | lib/base/file-lock.cpp:36-44 | a shared lock is had unless another process has the exclusive one, an exclusive one only if no other has any |
| FileProtocol.LocksStep | lib/base/file-lock.cpp:25-88 | every step of every process keeps the lock table in agreement with where the processes are, and an exclusive lock excludes every other |
| FileProtocol.WriterIsAlone | lib/base/file-lock.cpp:79-88 | while one process is in a write section, no other holds any lock |
| FileProtocol.ContentsStep | lib/base/file-utils.cpp:27-89 | every step keeps what was read or written so far in agreement with the file, and the file in agreement with the log whenever nobody writes |
| FileProtocol.InvRun | lib/base/file-utils.cpp:27-89 | both hold in every state of every run |
| FileProtocol.LockedAccessIsAtomic | lib/base/file-utils.cpp:27-58 | the log of any run is the history of an atomic register: each read returned the value then held, or its start if the read failed midway |
| FileProtocol.ReadsAreWhole | lib/base/file-utils.cpp:27-58 | each read that reached the end, with no write before it that failed midway, returned the initial contents or the whole of one completed write or modification, never part of one |
| FileProtocol.NoUpdateIsLost | src/tool/config/kv.cpp:100-195 | with only reads, whole or not, and completed modifications under the lock, the file is the result of all the modifications, one after the other |
| FileProtocol.SomeoneCanMove | lib/base/file-lock.cpp:25-88 | while any process is at work, some process can take a step other than starting something new or any that is a failing call |
| LockedFile.Machine.Perform | lib/base/file-utils.cpp:27-89 | one system call is one step of the protocol, and the run so far stays a run of it |
| LockedFile.Machine.TakeShareLock | lib/base/file-lock.cpp:36-40 | the shared lock is had exactly if no other process holds the exclusive one; otherwise the process waits and nothing changes |
| LockedFile.Machine.CreateShareLock | lib/base/file-lock.cpp:68-77 | no lock exactly if the file is missing or a call failed; otherwise the process holds the shared lock, or waits while another holds the exclusive one |
| LockedFile.Machine.TakeExclusiveLock | lib/base/file-lock.cpp:36-44 | the exclusive lock is had exactly if no other process holds any; otherwise the process waits and nothing changes |
| LockedFile.Machine.CreateExclusiveLock | lib/base/file-lock.cpp:79-88 | no lock exactly if a call failed; otherwise the file exists and the process holds the exclusive lock, or waits while another holds any |
| LockedFile.Machine.Release | lib/base/file-lock.cpp:53-66 | the lock is given back, nothing else changes |
| LockedFile.Machine.ReadAll | lib/base/file-utils.cpp:27-45 | reading in pieces of any size gives the file, or a prefix of it if a read fails |
| LockedFile.Machine.Send | lib/base/file-utils.cpp:60-89 | writing in pieces of any size leaves all of the data, or a prefix of it if the write fails |
| LockedFile.Machine.ReadContents | lib/base/file-utils.cpp:27-45 | the part under the lock: false only if the file cannot be opened; otherwise its contents, or unnoticed a prefix of them |
| LockedFile.Machine.WriteContents | lib/base/file-utils.cpp:60-89 | false exactly if the file cannot be opened or write reports an error; the file is the data if all was written, a prefix of it after a short or refused write, and as before if not opened |
| LockedFile.Machine.ReadContentsWithLock | lib/base/file-utils.cpp:27-45 | result, contents and log in terms of which calls fail and which locks others hold; locks and processes are as before unless it has to wait |
| LockedFile.Machine.WriteContentsWithLock | lib/base/file-utils.cpp:47-58 | result, new file and log in terms of which calls fail and which locks others hold; locks and processes are as before unless it has to wait |
| LockedFile.Machine.ReadToChange | src/tool/config/kv.cpp:112-114 | the old contents are read whole, or in part or not at all if a call fails unnoticed |
| LockedFile.Machine.SetWithLock | src/tool/config/kv.cpp:100-195 | under one lock the file becomes the change of its old contents, and is logged so, if no call fails; otherwise result and file in terms of which call failed |
| LockedFile.Machine.WriteThenRead | lib/base/file-utils.cpp:27-58 | unless the writer has to wait, what one process writes another reads back, and it is the text itself exactly if that is ASCII |
| StrUtils.SplitLines | lib/base/str-utils.cpp:22-61 | the loop computes the lines of the recursive grammar over LF, CR and CRLF |
| StrUtils.LinesAreBreakFree | lib/base/str-utils.cpp:22-61 | no line holds a CR or LF |
| StrUtils.SplitUndoesJoin | lib/base/str-utils.cpp:22-61 | splitting gives back lines joined with any choice of terminators exactly if no CR line comes before an empty LF line |
| StrUtils.EveryTextIsJoined | lib/base/str-utils.cpp:22-61 | every text is a join of lines without a CR line before an empty LF line, and splits into just those |
| StrUtils.TwoLinesBecomeOne | lib/base/str-utils.cpp:22-61 | a CR line and an empty LF line behind it come back as one line |
| StrUtils.LinesIgnoreTerminators | lib/base/str-utils.cpp:22-61 | replacing every terminator with LF does not change the lines |
| StrUtils.SplitWithChar | lib/base/str-utils.cpp:79-102 | the loop computes the fields, or with merging the fields without the empty ones, except that the last is always kept |
| StrUtils.JoinUndoesSplit | lib/base/str-utils.cpp:79-102 | the fields are free of the delimiter and joined again are the text |
| StrUtils.OneFieldPerDelimiter | lib/base/str-utils.cpp:79-102 | there is one more field than delimiters |
| StrUtils.SplitUndoesJoinWithChar | lib/base/str-utils.cpp:79-102 | any fields free of the delimiter come back from their join |
| StrUtils.MergingDropsEmpties | lib/base/str-utils.cpp:79-102 | with merging, an empty field more or less makes no difference, any other one comes back in its place, and the last one always |
| StrUtils.Intersect | lib/base/str-utils.cpp:182-198 | the two loops give each element of the first list, in order, as often as the second holds it |
| StrUtils.IntersectionAppend | lib/base/str-utils.cpp:182-198 | the order is that of the first list |
| StrUtils.IntersectionCounts | lib/base/str-utils.cpp:182-198 | a value comes out as often as the product of its multiplicities |
| StrUtils.IntersectionCommutes | lib/base/str-utils.cpp:182-198 | swapping the arguments gives a permutation |
| Envelope.BrEncrypt | lib/base/crypto-helper.cpp:400-418 | computes the sealed envelope, or the empty text as soon as a primitive fails |
| Envelope.SealedMeans | lib/base/crypto-helper.cpp:400-418 | sealing gives nothing exactly if one of the three primitives does, otherwise the encoded message and the encrypted digest around one '@' |
| Envelope.BrDecrypt | lib/base/crypto-helper.cpp:420-446 | computes the opened envelope, through the splitter |
| Envelope.SealedOpens | lib/base/crypto-helper.cpp:400-446 | every envelope sealed for a key opens with the matching key to the message |
| Envelope.OpensOnlyWithItsDigest | lib/base/crypto-helper.cpp:420-446 | an envelope opens to a message exactly if it is two parts around one '@', the first decoding to the message and the second decrypting to its digest |
| Patterns.GreedyIsExact | src/daemon/account/manager.cpp:158-177 | greedy matching without backtracking ends exactly at the words of the pattern |
| Rewriting.OneAfterOthers | src/daemon/account/manager.cpp:257-265 | for patterns that keep out of each other's words, replacing by one rule after others is replacing by all at once |
| Rewriting.RewriteKeeps | src/daemon/account/manager.cpp:172-173 | replacing leaves a text alone exactly if every match already is its replacement |
| Rewriting.RewriteAgain | src/daemon/account/manager.cpp:257-265 | putting in words of the patterns first makes no difference to what a second replacement puts in |
| Rewriting.OneOfEachRewritten | src/daemon/account/manager.cpp:257-265 | with one match of each of two patterns just those two places are rewritten |
| SystemAuth.LinesMatch | src/daemon/account/manager.cpp:47-59 | the lines that enabling puts in are found by the patterns of disabling |
| SystemAuth.SystemAuthIsSuited | src/daemon/account/manager.cpp:47-59 | no match of the actual patterns starts in, or runs into, an inserted line or an anchor but as intended |
| SystemAuth.EnableSystemMeans | src/daemon/account/manager.cpp:228-268 | for every text: skipped exactly if either include line is in it, failed exactly if moreover either anchor is not, otherwise each match of an anchor becomes line and first match |
| SystemAuth.LinesGoInFront | src/daemon/account/manager.cpp:257-265 | with one match of each anchor the text is kept and the two lines stand right in front of the two matches |
| SystemAuth.EnabledIsRecognised | src/daemon/account/manager.cpp:228-268 | what enabling makes of any text holds both include lines, is not the text, and is skipped by a second enabling |
| SystemAuth.SystemRoundTrip | src/daemon/account/manager.cpp:158-268 | for any suited rules and any text that can be enabled: disabling restores the text exactly if all matches of each anchor carry the text of the first, and otherwise gives the text with those made alike |
| SystemAuth.LeveledCanBeEnabled | src/daemon/account/manager.cpp:158-268 | the text that disabling leaves is enabled to the same text again, and skipped by a second disabling |
| SystemAuth.SystemAuthRoundTrip | src/daemon/account/manager.cpp:158-268 | all this for the actual lines and every text |
| SystemAuthTexts.EvenIsEnabled | src/daemon/account/manager.cpp:228-268 | a text of one line for each anchor that can be enabled |
| SystemAuthTexts.UnevenIsNotRestored | src/daemon/account/manager.cpp:158-268 | a text with two auth anchors that differ in a blank and is not restored |
| Cutting.ExchangedIsGlued | src/daemon/account/manager.cpp:194-203 | replacing the beginning of every occurrence is cutting the text there and gluing the pieces with the replacement |
| Cutting.PiecesAreOf | src/daemon/account/manager.cpp:194-203 | gluing the pieces with what was cut out gives the text back |
| Cutting.NothingLeft | src/daemon/account/manager.cpp:194-203 | no occurrence is overlooked in cutting |
| KiranFailing.FrontMeans | src/daemon/account/manager.cpp:182-203 | what is cut starts the first line with a match and ends at the last match on it |
| KiranFailing.MarkedIsGlued | src/daemon/account/manager.cpp:182-203 | marking a line cuts the text at all such fronts and glues it with the mark |
| KiranFailing.EnableKiranFails | src/daemon/account/manager.cpp:270-294 | for every text, enabling fails exactly if there is no multi-way line, or no piece of the text, cut where the text in front of that line stands, holds a multi-factor line |
| KiranFailing.DisableKiranFails | src/daemon/account/manager.cpp:179-203 | for every text, disabling fails likewise, only that a piece in front of another may also use the "auth" with which the other begins |
| KiranAuth.UniqueIsMarked | src/daemon/account/manager.cpp:185-206 | the rewriting replaces what stands before the one match in its line, and nothing else |
| KiranAuth.WrittenOverMeans | src/daemon/account/manager.cpp:204-206 | after the write the new bytes stand at the start of the file and the old ones behind them |
| KiranAuth.EnableThenDisable | src/daemon/account/manager.cpp:270-297 | with one match of each line succeeds whatever stands before them, gives the text back exactly if the multi-way line was plain and the multi-factor line marked with one '#'; on the encoded bytes, the unclipped write of the first new text is exact if and only if the marks found took at most one byte, and that of the second always |
| KiranAuth.DisableThenEnable | src/daemon/account/manager.cpp:179-206 | the same the other way round, with the marks exchanged |
| KiranFailing.EnableKiranWritesExactly | src/daemon/account/manager.cpp:270-297 | for every text that can be enabled, the unclipped write is exact if and only if what stands in front of the two lines, as often as it stands, takes no more bytes than there are multi-way lines marked |
| KiranFailing.DisableKiranWritesExactly | src/daemon/account/manager.cpp:179-206 | for disabling, than there are multi-factor lines marked |
| KiranTexts.SampleIsOneOfEach | src/daemon/account/manager.cpp:270-297 | texts of the two lines, with every mark of one line without an 'a' before the second, have exactly one match of each pattern |
| KiranTexts.NotCovered | src/daemon/account/manager.cpp:285-297 | with "# " or one accented letter as that mark, enabling succeeds and the write leaves stale bytes |
| TextEncoding.SameBytesSameText | src/daemon/account/manager.cpp:174-206 | no two texts have the same encoded bytes |
| TextEncoding.AsciiIsItself | lib/base/file-utils.cpp:77 | ASCII text is its own bytes |
| TextEncoding.Utf8HasValue | lib/base/file-utils.cpp:77 | the bytes of a character stand for its number |
| TextEncoding.ReaderExists | src/daemon/account/manager.cpp:169-181 | text can be read back from its bytes, as the results about the two files suppose |
| PamToggle.SwitchingOnAndOff | src/daemon/account/manager.cpp:146-298 | on the bytes of both files, with one match of each line in the second and marks of at most one byte in all: on and off succeed, give both files back exactly if the anchors of a kind agree, the multi-way line is plain and the multi-factor line marked with one '#', and on twice is on once |
| PamToggle.EnablingReplies | src/daemon/account/manager.cpp:209-298 | for all files, however they read, and all failing calls: every reply of enabling under its exact condition on the texts, and what is left in the files with it |
| PamToggle.DisablingReplies | src/daemon/account/manager.cpp:146-207 | the same for disabling |
| PamToggle.MissingAnchorIsAnError | src/daemon/account/manager.cpp:250-256 | a concrete text without an auth anchor: an error, and nothing touched |
| PamToggle.EnablingHalfway | src/daemon/account/manager.cpp:209-298 | for all files and failing calls: enabling reports an error after changing the files exactly if the first can be rewritten, what gets written changes it, and the second cannot be opened or is as in EnableKiranFails; the second is then untouched |
| PamToggle.DisablingHalfway | src/daemon/account/manager.cpp:146-207 | the same for disabling |
| PamToggle.WritingChanges | src/daemon/account/manager.cpp:172-268 | if the calls that write do not fail, what gets written always changes the first file |
| PamToggle.WritingIsNotReported | src/daemon/account/manager.cpp:174-206 | no reply depends on how cutting, going back and writing go; the first file can be left empty and the switch reported as done |
| PamToggle.AfterHalfEnabling | src/daemon/account/manager.cpp:146-298 | half enabled files stay as they are when enabled again; disabling takes the lines out, restoring the first file exactly if its anchors agree, and fails exactly if the second file is as in DisableKiranFails |
| PamToggle.AfterHalfDisabling | src/daemon/account/manager.cpp:146-298 | half disabled files stay as they are when disabled again; enabling makes the first file what it was, and fails exactly if the second is as in EnableKiranFails |
| PamToggle.HalfEnablingHappens | src/daemon/account/manager.cpp:209-298 | two concrete files that enabling leaves halfway |
| PamToggle.HalfDisablingHappens | src/daemon/account/manager.cpp:146-207 | two concrete files that disabling leaves halfway |
| PamToggle.SwitchingHappens | src/daemon/account/manager.cpp:146-298 | two concrete files that are switched on, off and are as they were |
| PamToggle.CutUnnoticed | src/daemon/account/manager.cpp:266-298 | for the same files, if nothing of what is written gets to the first file, it is left empty and the switch reported as done |
| PamToggle.PamFiles.constructor | src/daemon/account/manager.cpp:146-298 | starts with the two given files |
| PamToggle.PamFiles.EnableMultiFactorAuthState | src/daemon/account/manager.cpp:209-298 | new files and reply are those of enabling, for every failing call |
| PamToggle.PamFiles.DisableMultiFactorAuthState | src/daemon/account/manager.cpp:146-207 | new files and reply are those of disabling, for every failing call |

## Left out

- Task bodies, futures and exceptions: a running task does nothing but come back, and tasks are named by their order of acceptance.
- WorkerPool.ThreadPool.EnqueueByIdx: requires a thread, because the program divides by the number of threads and stops there without one.
- PoolProtocol.ShutdownEnds: there is no scheduler in the model; that a possible step is taken at some time is left to the reader.
- A caller between unlock and notify while the pool is destroyed: its late notify is taken to be harmless; object lifetime is not part of this model.
- AES, RSA, MD5 and base64 are abstract functions: accounts assume that AES decryption undoes encryption, the envelope that decoding and private key undo encoding and public key, and that neither alphabet holds an '@' (sections 4 and 8 of RFC 4648). RSA key generation is not part of this model.
- Envelope.SealedOpens: stated for ASCII messages without NUL, the ones that survive conversion to a C string.
- SQL text and failing database calls: the user table is a map and every write succeeds. The program puts names unescaped into SQL text, so the results about accounts are about names without a single quote. D-Bus replies, logging, authority checks by process id and the choice of database file are left out.
- AccountManager.Manager.constructor: a first start with no database; a later start continues from a table that satisfies the invariants, which Accounts.InvRun covers.
- Each D-Bus call is one atomic step; a login reads the clock twice, the second reading no earlier than the first, and the clock never goes back. Overflow of the 32-bit failure counter is not modelled.
- Case folding is an unknown function of single characters that leaves lower case ASCII letters, digits, '.' and '_' alone; a newline in the password expression is LF.
- Accounts.RateBound: about login rejections for a wrong password. Logins turned away because of a freeze, a live session or an unknown name are not judged and not counted; wrong old passphrases in ChangePassphrase are judged and not counted, as Accounts.UncountedGuess and Accounts.GuessesByPassphrase state. Accounts.RateBoundForever likewise.
- In the model of the locked files bytes read are not decoded back to text. The locale is UTF-8, and a process that dies in mid-write without releasing its lock is not modelled; a write that fails midway is logged as torn with what it left.
- KV::set's editing of the text is an unknown function of the old contents; that its first open or its read may fail unnoticed, so that it edits less than the file held, is modelled as a write, not as a modification.
- LockedFile.Machine.ReadContentsWithLock: one process runs the function without interruption until it ends or has to wait; interleavings are the subject of FileProtocol. The same holds for LockedFile.Machine.WriteContentsWithLock.
- A file lock of no type, which the constructor of FileLock also takes.
- PamToggle.AfterHalfDisabling: about first files that enabling made of some text, with whatever anchors; of any other first file with both include lines nothing is said beyond PamToggle.DisablingHalfway.
- KiranAuth.EnableThenDisable: about one match of each pattern on lines of their own. KiranAuth.DisableThenEnable likewise. Of any other text KiranFailing states when rewriting it fails and when the write is exact, not what going back makes of it.
- PamToggle.SwitchingOnAndOff: about files that hold encoded text without NUL and byte order mark, as what reading makes of others is not modelled. The same holds for PamToggle.WritingChanges, PamToggle.AfterHalfEnabling and PamToggle.AfterHalfDisabling; the last two are about first files that were written whole. PamToggle.EnablingHalfway and PamToggle.DisablingHalfway take any bytes and any way to read them.
- getMultiFactorAuthState, the cached state and the effects of SetAuthTypeEnabled, beyond its failing, are left out.
- trim, ltrim, rtrim, startswith and the conversions in str-utils: easy members.
- The user interface, jobs and plugins, notification lists, category loading, translations and error texts.
