/** File access under advisory locks (lib/base/file-lock.cpp, lib/base/file-utils.cpp): any
    number of processes reading and writing one file through readContentsWithLock and
    writeContentsWithLock. Truncating, writing and reading are separate steps, and a write or a
    read may come in any number of pieces. `FileProtocol` is the interleaving and its proof;
    `LockedFile` has the two functions as methods. */
module FileProtocol {
  import opened TextEncoding

  // ----------------------------------------------------------------------- what is written

  /** QString::length counts UTF-16 code units. */
  function Units(text: string): nat {
    if text == "" then 0 else (if text[0] as int < 0x1_0000 then 1 else 2) + Units(text[1..])
  }

  lemma {:induction false} EncodedIsLongEnough(text: string)
    ensures Units(text) <= |Encoded(text)|
    ensures Units(text) == |Encoded(text)| <==> IsAscii(text)
  {
    if text != "" {
      EncodedIsLongEnough(text[1..]);
      assert text == [text[0]] + text[1..];
    }
  }

  /** The bytes that writeContents hands over: as many as the text has units. */
  function Payload(text: string): seq<byte> {
    EncodedIsLongEnough(text);
    Encoded(text)[..Units(text)]
  }

  /** The whole text is handed over exactly if it is ASCII; otherwise its end is cut off. */
  lemma PayloadIsWholeTextIffAscii(text: string)
    ensures Payload(text) == Encoded(text) <==> IsAscii(text)
  {
    EncodedIsLongEnough(text);
  }

  lemma UnitsOfOne(c: char)
    ensures Units([c]) == if c as int < 0x1_0000 then 1 else 2
  {
    assert [c][1..] == "";
  }

  lemma {:induction false} UnitsAppend(a: string, b: string)
    ensures Units(a + b) == Units(a) + Units(b)
  {
    if a == "" {
      assert a + b == b;
    } else {
      assert (a + b)[1..] == a[1..] + b;
      UnitsAppend(a[1..], b);
    }
  }

  /** What is handed over is the first bytes of the encoded text, as many as the text has
      UTF-16 units. */
  lemma PayloadIsCut(text: string)
    ensures Payload(text) <= Encoded(text) && |Payload(text)| == Units(text)
  {
    EncodedIsLongEnough(text);
  }

  /** An e with an acute accent is written as half a character. */
  lemma AccentIsCut()
    ensures var text := ['\U{E9}']; Encoded(text) == [0xC3, 0xA9] && Payload(text) == [0xC3]
  {
    var text := ['\U{E9}'];
    assert text[1..] == "";
    assert Encoded(text) == Utf8('\U{E9}') + Encoded("");
    assert Units(text) == 1;
  }

  // -------------------------------------------------------------------------- the protocol

  datatype LockKind = SharedLock | ExclusiveLock

  type Change = seq<byte> -> seq<byte>

  /** What a writer does under its lock: writeContentsWithLock, or the read, change and write
      back of KV::set. */
  datatype Job = Put(data: seq<byte>) | Modify(change: Change)

  /** Where data to be written comes from. */
  datatype Origin = Plain | Changed(change: Change, seen: seq<byte>)

  datatype Proc =
    | Idle
    | WantsRead                               // opened, waiting for flock(LOCK_SH)
    | ReadLocked                              // locked, QFile not open yet
    | Reading(got: seq<byte>)
    | WantsWrite(job: Job)                    // opened, waiting for flock(LOCK_EX)
    | ModifyLocked(change: Change)            // locked, QFile not open yet
    | Scanning(change: Change, got: seq<byte>)
    | Prepared(data: seq<byte>, origin: Origin)  // locked, nothing truncated yet
    | Writing(data: seq<byte>, sent: nat, origin: Origin)
    | Leaving                                 // done or failed, lock still held

  datatype Entry =
    | Wrote(proc: nat, data: seq<byte>)
    | Modified(proc: nat, change: Change, seen: seq<byte>)
    | Torn(proc: nat, left: seq<byte>)        // a write that failed midway
    | ReadBack(proc: nat, got: seq<byte>)
    | PartRead(proc: nat, got: seq<byte>)     // a read that failed midway

  datatype System = System(
    present: bool,
    disk: seq<byte>,
    locks: map<nat, LockKind>,
    procs: seq<Proc>,
    log: seq<Entry>)

  datatype Action =
    | OpenRead(i: nat)
    | OpenWrite(i: nat, job: Job)
    | LockFails(i: nat)
    | LockShared(i: nat)
    | LockExclusive(i: nat)
    | OpenFails(i: nat)                       // QFile::open fails under the lock
    | Begin(i: nat)                           // QFile::open for reading
    | ReadChunk(i: nat, k: nat)
    | EndRead(i: nat)
    | ReadFails(i: nat)                       // readAll returns what it has so far
    | Truncate(i: nat)                        // QFile::open for writing
    | WriteChunk(i: nat, k: nat)
    | EndWrite(i: nat)
    | WriteFails(i: nat)
    | Unlock(i: nat)

  /** flock grants a shared lock unless another holds the exclusive one, and an exclusive
      lock only if no other holds any. */
  predicate Grants(locks: map<nat, LockKind>, i: nat, kind: LockKind) {
    forall j :: j in locks && j != i ==> kind == SharedLock && locks[j] == SharedLock
  }

  /** A shared lock is had unless another process has the exclusive one, an exclusive lock
      only if no other process has any: readers do not wait for readers. */
  lemma GrantsMeans(locks: map<nat, LockKind>, i: nat)
    ensures Grants(locks, i, SharedLock) <==> !exists j :: j in locks && j != i && locks[j] == ExclusiveLock
    ensures Grants(locks, i, ExclusiveLock) <==> locks.Keys <= {i}
  {
    if locks.Keys <= {i} {
      assert forall j :: j in locks ==> j in locks.Keys;
    }
  }

  predicate Reads(p: Proc) { p.Reading? || p.Scanning? }

  ghost predicate Enabled(s: System, a: Action) {
    a.i < |s.procs| &&
    var p := s.procs[a.i];
    match a
    case OpenRead(_) => p.Idle? && s.present
    case OpenWrite(_, _) => p.Idle?
    case LockFails(_) => p.WantsRead? || p.WantsWrite?
    case LockShared(i) => p.WantsRead? && Grants(s.locks, i, SharedLock)
    case LockExclusive(i) => p.WantsWrite? && Grants(s.locks, i, ExclusiveLock)
    case OpenFails(_) => p.ReadLocked? || p.ModifyLocked? || p.Prepared?
    case Begin(_) => p.ReadLocked? || p.ModifyLocked?
    case ReadChunk(_, k) => Reads(p) && k > 0 && |p.got| + k <= |s.disk|
    case EndRead(_) => Reads(p) && |p.got| >= |s.disk|
    case ReadFails(_) => Reads(p)
    case Truncate(_) => p.Prepared?
    case WriteChunk(_, k) => p.Writing? && k > 0 && p.sent + k <= |p.data| && p.sent <= |s.disk|
    case EndWrite(_) => p.Writing? && p.sent == |p.data|
    case WriteFails(_) => p.Writing?
    case Unlock(_) => p.Leaving?
  }

  /** The file after writing `chunk` at offset `at`. */
  function Overwrite(disk: seq<byte>, at: nat, chunk: seq<byte>): seq<byte>
    requires at <= |disk|
  {
    disk[..at] + chunk + if at + |chunk| <= |disk| then disk[at + |chunk|..] else []
  }

  /** Where process p goes with action a. KV::set does not look at the results of its first
      open and of its read: what it has got by then counts as the old contents. */
  function NextProc(disk: seq<byte>, p: Proc, a: Action): Proc {
    match a
    case OpenRead(_) => WantsRead
    case OpenWrite(_, job) => WantsWrite(job)
    case LockFails(_) => Idle
    case LockShared(_) => ReadLocked
    case LockExclusive(_) =>
      (match p
       case WantsWrite(Put(data)) => Prepared(data, Plain)
       case WantsWrite(Modify(change)) => ModifyLocked(change)
       case _ => p)
    case OpenFails(_) => if p.ModifyLocked? then Prepared(p.change([]), Plain) else Leaving
    case Begin(_) => if p.ModifyLocked? then Scanning(p.change, []) else Reading([])
    case ReadChunk(_, k) =>
      (match p
       case Reading(got) => if |got| + k <= |disk| then Reading(got + disk[|got|..|got| + k]) else p
       case Scanning(change, got) => if |got| + k <= |disk| then Scanning(change, got + disk[|got|..|got| + k]) else p
       case _ => p)
    case EndRead(_) => if p.Scanning? then Prepared(p.change(p.got), Changed(p.change, p.got)) else Leaving
    case ReadFails(_) => if p.Scanning? then Prepared(p.change(p.got), Plain) else Leaving
    case Truncate(_) => if p.Prepared? then Writing(p.data, 0, p.origin) else p
    case WriteChunk(_, k) => if p.Writing? then Writing(p.data, p.sent + k, p.origin) else p
    case EndWrite(_) => Leaving
    case WriteFails(_) => Leaving
    case Unlock(_) => Idle
  }

  function NextDisk(disk: seq<byte>, p: Proc, a: Action): seq<byte> {
    match a
    case Truncate(_) => []
    case WriteChunk(_, k) =>
      if p.Writing? && p.sent + k <= |p.data| && p.sent <= |disk| then
        Overwrite(disk, p.sent, p.data[p.sent..p.sent + k])
      else disk
    case _ => disk
  }

  function NextLocks(locks: map<nat, LockKind>, a: Action): map<nat, LockKind> {
    match a
    case LockShared(i) => locks[i := SharedLock]
    case LockExclusive(i) => locks[i := ExclusiveLock]
    case Unlock(i) => locks - {i}
    case _ => locks
  }

  /** What the action completes, if anything. */
  function NewEntries(disk: seq<byte>, p: Proc, a: Action): seq<Entry> {
    match a
    case EndRead(i) => if p.Reading? then [ReadBack(i, p.got)] else []
    case ReadFails(i) => if p.Reading? then [PartRead(i, p.got)] else []
    case EndWrite(i) =>
      (match p
       case Writing(data, _, Plain) => [Wrote(i, data)]
       case Writing(_, _, Changed(change, seen)) => [Modified(i, change, seen)]
       case _ => [])
    case WriteFails(i) => [Torn(i, disk)]
    case _ => []
  }

  function Apply(s: System, a: Action): System
    requires Enabled(s, a)
  {
    var p := s.procs[a.i];
    System(s.present || a.OpenWrite?,
           NextDisk(s.disk, p, a),
           NextLocks(s.locks, a),
           s.procs[a.i := NextProc(s.disk, p, a)],
           s.log + NewEntries(s.disk, p, a))
  }

  ghost predicate Reaches(s: System, actions: seq<Action>, t: System)
    decreases |actions|
  {
    if actions == [] then s == t
    else Enabled(s, actions[0]) && Reaches(Apply(s, actions[0]), actions[1..], t)
  }

  function Init(n: nat, present: bool, disk: seq<byte>): System
    requires !present ==> disk == []
  {
    System(present, disk, map[], seq(n, _ => Idle), [])
  }

  // ------------------------------------------------------------------- an atomic register

  /** The value of a register after the log, one entry at a time. */
  ghost function Latest(log: seq<Entry>, initial: seq<byte>): seq<byte> {
    if log == [] then initial
    else
      match log[|log| - 1]
      case Wrote(_, data) => data
      case Modified(_, change, seen) => change(seen)
      case Torn(_, left) => left
      case _ => Latest(log[..|log| - 1], initial)
  }

  /** Each read, and each read of a modification, returned the value then held; one that
      failed midway, the start of it. */
  ghost predicate Fits(e: Entry, held: seq<byte>) {
    && (e.ReadBack? ==> e.got == held)
    && (e.Modified? ==> e.seen == held)
    && (e.PartRead? ==> e.got <= held)
  }

  /** The log is the history of an atomic register. */
  ghost predicate RegisterHistory(log: seq<Entry>, initial: seq<byte>) {
    forall k :: 0 <= k < |log| ==> Fits(log[k], Latest(log[..k], initial))
  }

  // ------------------------------------------------------------------------------ invariant

  ghost predicate HoldsShared(p: Proc) { p.ReadLocked? || p.Reading? }

  ghost predicate HoldsExclusive(p: Proc) { p.ModifyLocked? || p.Scanning? || p.Prepared? || p.Writing? }

  ghost predicate Holds(p: Proc) { HoldsShared(p) || HoldsExclusive(p) || p.Leaving? }

  ghost predicate LockFits(p: Proc, locks: map<nat, LockKind>, i: nat) {
    && (i in locks <==> Holds(p))
    && (HoldsShared(p) ==> locks[i] == SharedLock)
    && (HoldsExclusive(p) ==> locks[i] == ExclusiveLock)
  }

  /** The kernel's lock table agrees with where the processes are, and an exclusive lock
      excludes every other. */
  ghost predicate LocksAgree(s: System) {
    && (forall i :: i in s.locks ==> 0 <= i < |s.procs|)
    && (forall i :: 0 <= i < |s.procs| ==> LockFits(s.procs[i], s.locks, i))
    && (forall i, j :: i in s.locks && j in s.locks && i != j ==> s.locks[i] == SharedLock)
  }

  ghost predicate NobodyWrites(s: System) {
    forall i :: 0 <= i < |s.procs| ==> !s.procs[i].Writing?
  }

  /** What a process has read or written so far agrees with the file and the register. */
  ghost predicate ProcFits(p: Proc, disk: seq<byte>, held: seq<byte>) {
    && (Reads(p) ==> p.got <= disk)
    && (p.Writing? ==> p.sent <= |p.data| && disk == p.data[..p.sent])
    && ((p.Prepared? || p.Writing?) && p.origin.Changed? ==>
          p.origin.seen == held && p.data == p.origin.change(held))
  }

  ghost predicate ContentsAgree(s: System, initial: seq<byte>) {
    && (forall i :: 0 <= i < |s.procs| ==> ProcFits(s.procs[i], s.disk, Latest(s.log, initial)))
    && (NobodyWrites(s) ==> s.disk == Latest(s.log, initial))
    && RegisterHistory(s.log, initial)
  }

  ghost predicate Inv(s: System, initial: seq<byte>) {
    LocksAgree(s) && ContentsAgree(s, initial)
  }

  lemma LockFitsStep(s: System, a: Action)
    requires LocksAgree(s) && Enabled(s, a)
    ensures LockFits(NextProc(s.disk, s.procs[a.i], a), NextLocks(s.locks, a), a.i)
  {
    assert LockFits(s.procs[a.i], s.locks, a.i);
  }

  lemma LocksStep(s: System, a: Action)
    requires LocksAgree(s) && Enabled(s, a)
    ensures LocksAgree(Apply(s, a))
  {
    var t := Apply(s, a);
    LockFitsStep(s, a);
    forall j | 0 <= j < |t.procs| ensures LockFits(t.procs[j], t.locks, j) {
      if j != a.i {
        assert LockFits(s.procs[j], s.locks, j);
      }
    }
    assert LockFits(s.procs[a.i], s.locks, a.i);
  }

  /** A writer is alone under the lock. */
  lemma WriterIsAlone(s: System, i: nat, j: nat)
    requires LocksAgree(s) && i < |s.procs| && j < |s.procs| && i != j
    requires HoldsExclusive(s.procs[i])
    ensures !Holds(s.procs[j])
  {
    assert LockFits(s.procs[i], s.locks, i) && LockFits(s.procs[j], s.locks, j);
  }

  lemma LogAppend(log: seq<Entry>, e: Entry, initial: seq<byte>)
    requires RegisterHistory(log, initial) && Fits(e, Latest(log, initial))
    ensures RegisterHistory(log + [e], initial)
    ensures Latest(log + [e], initial) ==
      match e
      case Wrote(_, data) => data
      case Modified(_, change, seen) => change(seen)
      case Torn(_, left) => left
      case _ => Latest(log, initial)
  {
    var more := log + [e];
    assert more[..|log|] == log;
    forall k | 0 <= k < |more| ensures Fits(more[k], Latest(more[..k], initial)) {
      if k < |log| {
        assert more[..k] == log[..k] && Fits(log[k], Latest(log[..k], initial));
      }
    }
  }

  lemma HolderMeansNoWriter(s: System, i: nat)
    requires LocksAgree(s) && i < |s.procs|
    requires HoldsShared(s.procs[i]) || (HoldsExclusive(s.procs[i]) && !s.procs[i].Writing?)
    ensures NobodyWrites(s)
  {
    forall j | 0 <= j < |s.procs| ensures !s.procs[j].Writing? {
      if j != i && s.procs[j].Writing? {
        WriterIsAlone(s, j, i);
      }
    }
  }

  lemma LogStep(s: System, a: Action, initial: seq<byte>)
    requires Inv(s, initial) && Enabled(s, a)
    ensures var t := Apply(s, a);
      && RegisterHistory(t.log, initial)
      && (!a.EndWrite? && !a.WriteFails? ==> Latest(t.log, initial) == Latest(s.log, initial))
      && (a.EndWrite? ==> Latest(t.log, initial) == s.procs[a.i].data)
      && (a.WriteFails? ==> Latest(t.log, initial) == s.disk)
  {
    hide LocksAgree, RegisterHistory, Latest;
    var p := s.procs[a.i];
    assert ProcFits(p, s.disk, Latest(s.log, initial));
    var entries := NewEntries(s.disk, p, a);
    if entries == [] {
      assert s.log + entries == s.log;
    } else {
      if p.Reading? {
        HolderMeansNoWriter(s, a.i);
      }
      LogAppend(s.log, entries[0], initial);
    }
  }

  lemma PieceFits(disk: seq<byte>, data: seq<byte>, sent: nat, k: nat)
    requires sent + k <= |data| && disk == data[..sent]
    ensures Overwrite(disk, sent, data[sent..sent + k]) == data[..sent + k]
  {
  }

  lemma ReaderFits(s: System, a: Action, initial: seq<byte>)
    requires Inv(s, initial) && Enabled(s, a) && Reads(s.procs[a.i])
    ensures var t := Apply(s, a); ProcFits(t.procs[a.i], t.disk, Latest(t.log, initial))
  {
    hide LocksAgree, RegisterHistory, Latest;
    var p := s.procs[a.i];
    assert ProcFits(p, s.disk, Latest(s.log, initial));
    LogStep(s, a, initial);
    HolderMeansNoWriter(s, a.i);
    if a.EndRead? {
      assert p.got == s.disk;
    }
  }

  lemma WriterFits(s: System, a: Action, initial: seq<byte>)
    requires Inv(s, initial) && Enabled(s, a) && s.procs[a.i].Writing?
    ensures var t := Apply(s, a); ProcFits(t.procs[a.i], t.disk, Latest(t.log, initial))
  {
    hide LocksAgree, RegisterHistory, Latest;
    var p := s.procs[a.i];
    assert ProcFits(p, s.disk, Latest(s.log, initial));
    LogStep(s, a, initial);
    if a.WriteChunk? {
      PieceFits(s.disk, p.data, p.sent, a.k);
    }
  }

  lemma ActorFits(s: System, a: Action, initial: seq<byte>)
    requires Inv(s, initial) && Enabled(s, a)
    ensures var t := Apply(s, a); ProcFits(t.procs[a.i], t.disk, Latest(t.log, initial))
  {
    var p := s.procs[a.i];
    if Reads(p) {
      ReaderFits(s, a, initial);
    } else if p.Writing? {
      WriterFits(s, a, initial);
    } else {
      assert ProcFits(p, s.disk, Latest(s.log, initial));
      LogStep(s, a, initial);
    }
  }

  lemma OtherFits(s: System, a: Action, initial: seq<byte>, j: nat)
    requires Inv(s, initial) && Enabled(s, a) && j < |s.procs| && j != a.i
    ensures var t := Apply(s, a); ProcFits(t.procs[j], t.disk, Latest(t.log, initial))
  {
    assert ProcFits(s.procs[j], s.disk, Latest(s.log, initial));
    LogStep(s, a, initial);
    if HoldsExclusive(s.procs[a.i]) {
      WriterIsAlone(s, a.i, j);
    }
  }

  lemma DiskIsHeld(s: System, a: Action, initial: seq<byte>)
    requires Inv(s, initial) && Enabled(s, a) && NobodyWrites(Apply(s, a))
    ensures Apply(s, a).disk == Latest(Apply(s, a).log, initial)
  {
    var t := Apply(s, a);
    var p := s.procs[a.i];
    assert ProcFits(p, s.disk, Latest(s.log, initial));
    LogStep(s, a, initial);
    assert !t.procs[a.i].Writing?;
    if !p.Writing? {
      forall j | 0 <= j < |s.procs| ensures !s.procs[j].Writing? {
        assert j != a.i ==> t.procs[j] == s.procs[j];
      }
    }
  }

  lemma ContentsStep(s: System, a: Action, initial: seq<byte>)
    requires Inv(s, initial) && Enabled(s, a)
    ensures ContentsAgree(Apply(s, a), initial)
  {
    var t := Apply(s, a);
    LogStep(s, a, initial);
    forall j | 0 <= j < |t.procs| ensures ProcFits(t.procs[j], t.disk, Latest(t.log, initial)) {
      if j == a.i {
        ActorFits(s, a, initial);
      } else {
        OtherFits(s, a, initial, j);
      }
    }
    if NobodyWrites(t) {
      DiskIsHeld(s, a, initial);
    }
  }

  lemma {:induction false} InvRun(s: System, actions: seq<Action>, t: System, initial: seq<byte>)
    requires Inv(s, initial) && Reaches(s, actions, t)
    ensures Inv(t, initial)
    decreases |actions|
  {
    if actions != [] {
      LocksStep(s, actions[0]);
      ContentsStep(s, actions[0], initial);
      InvRun(Apply(s, actions[0]), actions[1..], t, initial);
    }
  }

  // --------------------------------------------------------------------------- what follows

  /** However any number of processes interleave, the completed operations form the history
      of one atomic register that starts with the file's contents. */
  lemma LockedAccessIsAtomic(n: nat, present: bool, disk: seq<byte>, actions: seq<Action>, s: System)
    requires !present ==> disk == []
    requires Reaches(Init(n, present, disk), actions, s)
    ensures RegisterHistory(s.log, disk)
    ensures NobodyWrites(s) ==> s.disk == Latest(s.log, disk)
  {
    InvRun(Init(n, present, disk), actions, s, disk);
  }

  ghost predicate NoneTorn(log: seq<Entry>) {
    forall k :: 0 <= k < |log| ==> !log[k].Torn?
  }

  /** The value is the file's first contents or the whole of what one entry wrote. */
  ghost predicate WholeValue(log: seq<Entry>, initial: seq<byte>, value: seq<byte>) {
    value == initial || exists k ::
      0 <= k < |log| && (log[k].Wrote? || log[k].Modified?) &&
      value == if log[k].Wrote? then log[k].data else log[k].change(log[k].seen)
  }

  lemma {:induction false} LatestIsWhole(log: seq<Entry>, initial: seq<byte>)
    requires NoneTorn(log)
    ensures WholeValue(log, initial, Latest(log, initial))
  {
    if log != [] {
      var k := |log| - 1;
      if log[k].ReadBack? || log[k].PartRead? {
        LatestIsWhole(log[..k], initial);
        var value := Latest(log[..k], initial);
        if value != initial {
          var i :| 0 <= i < k && (log[..k][i].Wrote? || log[..k][i].Modified?) &&
            value == if log[..k][i].Wrote? then log[..k][i].data else log[..k][i].change(log[..k][i].seen);
          assert log[i] == log[..k][i];
        }
      }
    }
  }

  /** As long as no write before it fails midway, every read that reaches the end returns the file's first
      contents or the whole of one completed write: never a truncated or partial file. */
  lemma ReadsAreWhole(n: nat, present: bool, disk: seq<byte>, actions: seq<Action>, s: System, k: nat)
    requires !present ==> disk == []
    requires Reaches(Init(n, present, disk), actions, s)
    requires k < |s.log| && s.log[k].ReadBack? && NoneTorn(s.log[..k])
    ensures WholeValue(s.log[..k], disk, s.log[k].got)
  {
    LockedAccessIsAtomic(n, present, disk, actions, s);
    LatestIsWhole(s.log[..k], disk);
    assert Fits(s.log[k], Latest(s.log[..k], disk));
  }

  ghost function ApplyChanges(log: seq<Entry>, value: seq<byte>): seq<byte> {
    if log == [] then value
    else
      var before := ApplyChanges(log[..|log| - 1], value);
      match log[|log| - 1]
      case Modified(_, change, _) => change(before)
      case _ => before
  }

  lemma {:induction false} ChangesAddUp(log: seq<Entry>, initial: seq<byte>)
    requires RegisterHistory(log, initial)
    requires forall k :: 0 <= k < |log| ==> log[k].Modified? || log[k].ReadBack? || log[k].PartRead?
    ensures Latest(log, initial) == ApplyChanges(log, initial)
  {
    if log != [] {
      var k := |log| - 1;
      forall i | 0 <= i < k ensures Fits(log[..k][i], Latest(log[..k][..i], initial)) {
        assert log[..k][..i] == log[..i] && Fits(log[i], Latest(log[..i], initial));
      }
      ChangesAddUp(log[..k], initial);
      assert Fits(log[k], Latest(log[..k], initial));
    }
  }

  /** No update is lost: if the processes only read, or modify under the lock, the file ends
      as the result of all completed modifications applied one after the other. */
  lemma NoUpdateIsLost(n: nat, present: bool, disk: seq<byte>, actions: seq<Action>, s: System)
    requires !present ==> disk == []
    requires Reaches(Init(n, present, disk), actions, s)
    requires forall k :: 0 <= k < |s.log| ==> s.log[k].Modified? || s.log[k].ReadBack? || s.log[k].PartRead?
    ensures NobodyWrites(s) ==> s.disk == ApplyChanges(s.log, disk)
  {
    LockedAccessIsAtomic(n, present, disk, actions, s);
    ChangesAddUp(s.log, disk);
  }

  ghost predicate CanMove(s: System) {
    exists a :: Enabled(s, a) &&
      !a.OpenRead? && !a.OpenWrite? && !a.LockFails? && !a.OpenFails? && !a.ReadFails? && !a.WriteFails?
  }

  lemma HolderCanMove(s: System, i: nat, initial: seq<byte>)
    requires i < |s.procs| && Holds(s.procs[i]) && ProcFits(s.procs[i], s.disk, Latest(s.log, initial))
    ensures CanMove(s)
  {
    var p := s.procs[i];
    var a := match p
      case ReadLocked => Begin(i)
      case ModifyLocked(_) => Begin(i)
      case Reading(got) => if |got| < |s.disk| then ReadChunk(i, 1) else EndRead(i)
      case Scanning(_, got) => if |got| < |s.disk| then ReadChunk(i, 1) else EndRead(i)
      case Prepared(_, _) => Truncate(i)
      case Writing(data, sent, _) => if sent < |data| then WriteChunk(i, 1) else EndWrite(i)
      case _ => Unlock(i);
    assert Enabled(s, a);
  }

  lemma WaiterCanMove(s: System, i: nat)
    requires LocksAgree(s) && i < |s.procs| && (s.procs[i].WantsRead? || s.procs[i].WantsWrite?)
    requires forall j :: 0 <= j < |s.procs| ==> !Holds(s.procs[j])
    ensures CanMove(s)
  {
    forall j: nat ensures j !in s.locks {
      if j < |s.procs| {
        assert LockFits(s.procs[j], s.locks, j);
      }
    }
    assert Enabled(s, if s.procs[i].WantsRead? then LockShared(i) else LockExclusive(i));
  }

  /** No process waits for ever on a lock nobody will release: while any process is at work,
      some process can take a step other than starting something new or failing. */
  lemma SomeoneCanMove(n: nat, present: bool, disk: seq<byte>, actions: seq<Action>, s: System, i: nat)
    requires !present ==> disk == []
    requires Reaches(Init(n, present, disk), actions, s)
    requires i < |s.procs| && !s.procs[i].Idle?
    ensures CanMove(s)
  {
    InvRun(Init(n, present, disk), actions, s, disk);
    if j :| 0 <= j < |s.procs| && Holds(s.procs[j]) {
      HolderCanMove(s, j, disk);
    } else {
      WaiterCanMove(s, i);
    }
  }
}

module LockedFile {
  import opened TextEncoding
  import opened FileProtocol

  /** How a write goes: whole, only in part although it is reported as done, such as when the
      file system is full as the file is closed, or in part and reported as failed. */
  datatype Transfer = Whole | Short | Refused

  /** Which of the calls a function makes fail. */
  datatype Faults = Faults(open: bool, lock: bool, reopen: bool, read: bool, write: Transfer)

  /** What becomes of a call for a lock: it is had, it cannot be had, or the process waits. */
  datatype LockResult = Held | NoLock | Waiting

  /** A process that has got the lock for its job. */
  function AtWork(job: Job): Proc {
    match job
    case Put(data) => Prepared(data, Plain)
    case Modify(change) => ModifyLocked(change)
  }

  function WithGot(p: Proc, got: seq<byte>): Proc
    requires Reads(p)
  {
    p.(got := got)
  }

  function WriteEntry(i: nat, data: seq<byte>, origin: Origin): Entry {
    match origin
    case Plain => Wrote(i, data)
    case Changed(change, seen) => Modified(i, change, seen)
  }

  function ReadEntries(i: nat, ok: bool, faults: Faults, contents: seq<byte>): seq<Entry> {
    if !ok then [] else if faults.read then [PartRead(i, contents)] else [ReadBack(i, contents)]
  }

  lemma {:induction false} OneMoreAction(s: System, actions: seq<Action>, t: System, a: Action)
    requires Reaches(s, actions, t) && Enabled(t, a)
    ensures Reaches(s, actions + [a], Apply(t, a))
    decreases |actions|
  {
    if actions == [] {
      assert ([] + [a])[1..] == [];
    } else {
      assert (actions + [a])[1..] == actions[1..] + [a];
      OneMoreAction(Apply(s, actions[0]), actions[1..], t, a);
    }
  }

  /** The file, the kernel's locks on it, and the processes that use it. Whatever its methods
      do is recorded as a run of the protocol. */
  class Machine {
    var present: bool
    var disk: seq<byte>
    var locks: map<nat, LockKind>
    var procs: seq<Proc>
    ghost var log: seq<Entry>
    ghost const start: System
    ghost var trace: seq<Action>

    ghost function View(): System
      reads this
    {
      System(present, disk, locks, procs, log)
    }

    ghost predicate Valid()
      reads this
    {
      Reaches(start, trace, View()) && LocksAgree(View())
    }

    constructor (n: nat, there: bool, contents: seq<byte>)
      requires !there ==> contents == []
      ensures Valid() && View() == start == Init(n, there, contents)
    {
      present, disk, locks, log := there, contents, map[], [];
      procs := seq(n, _ => Idle);
      start, trace := Init(n, there, contents), [];
    }

    /** One system call of process a.i. */
    method Perform(a: Action)
      requires Valid() && Enabled(View(), a)
      modifies this
      ensures Valid() && View() == Apply(old(View()), a)
    {
      OneMoreAction(start, trace, View(), a);
      LocksStep(View(), a);
      var p := procs[a.i];
      log, trace := log + NewEntries(disk, p, a), trace + [a];
      procs := procs[a.i := NextProc(disk, p, a)];
      present, disk, locks := present || a.OpenWrite?, NextDisk(disk, p, a), NextLocks(locks, a);
    }

    /** flock(LOCK_SH) for a process that has opened the file or is already waiting. */
    method TakeShareLock(i: nat) returns (result: LockResult)
      requires Valid() && i < |procs| && procs[i].WantsRead?
      modifies this
      ensures Valid() && result == if Grants(old(locks), i, SharedLock) then Held else Waiting
      ensures View() == if result == Held then
          old(View()).(procs := old(procs)[i := ReadLocked], locks := old(locks)[i := SharedLock])
        else old(View())
    {
      if !Grants(locks, i, SharedLock) {
        return Waiting;
      }
      Perform(LockShared(i));
      return Held;
    }

    /** createShareLock. */
    method CreateShareLock(i: nat, faults: Faults) returns (result: LockResult)
      requires Valid() && i < |procs| && procs[i].Idle?
      modifies this
      ensures Valid() && result ==
        if !old(present) || faults.open || faults.lock then NoLock
        else if Grants(old(locks), i, SharedLock) then Held else Waiting
      ensures View() ==
        match result
        case NoLock => old(View())
        case Waiting => old(View()).(procs := old(procs)[i := WantsRead])
        case Held => old(View()).(procs := old(procs)[i := ReadLocked], locks := old(locks)[i := SharedLock])
    {
      hide Reaches, LocksAgree;
      if !present || faults.open {
        return NoLock;
      }
      Perform(OpenRead(i));
      if faults.lock {
        Perform(LockFails(i));
        assert procs == old(procs);
        return NoLock;
      }
      result := TakeShareLock(i);
      assert result == Held ==> procs == old(procs)[i := ReadLocked];
    }

    /** flock(LOCK_EX) for a process that has opened the file or is already waiting. */
    method TakeExclusiveLock(i: nat, job: Job) returns (result: LockResult)
      requires Valid() && i < |procs| && procs[i] == WantsWrite(job)
      modifies this
      ensures Valid() && result == if Grants(old(locks), i, ExclusiveLock) then Held else Waiting
      ensures View() == if result == Held then
          old(View()).(procs := old(procs)[i := AtWork(job)], locks := old(locks)[i := ExclusiveLock])
        else old(View())
    {
      if !Grants(locks, i, ExclusiveLock) {
        return Waiting;
      }
      Perform(LockExclusive(i));
      return Held;
    }

    /** createExcusiveLock: the file exists from here on. */
    method CreateExclusiveLock(i: nat, job: Job, faults: Faults) returns (result: LockResult)
      requires Valid() && i < |procs| && procs[i].Idle?
      modifies this
      ensures Valid() && result ==
        if faults.open || faults.lock then NoLock
        else if Grants(old(locks), i, ExclusiveLock) then Held else Waiting
      ensures View() ==
        var there := old(View()).(present := old(present) || !faults.open);
        match result
        case NoLock => there
        case Waiting => there.(procs := old(procs)[i := WantsWrite(job)])
        case Held => there.(procs := old(procs)[i := AtWork(job)], locks := old(locks)[i := ExclusiveLock])
    {
      hide Reaches, LocksAgree, AtWork;
      if faults.open {
        return NoLock;
      }
      Perform(OpenWrite(i, job));
      if faults.lock {
        Perform(LockFails(i));
        assert procs == old(procs);
        return NoLock;
      }
      result := TakeExclusiveLock(i, job);
      assert result == Held ==> procs == old(procs)[i := AtWork(job)];
    }

    /** ~FileLock: give the lock back and close. */
    method Release(i: nat)
      requires Valid() && i < |procs| && procs[i].Leaving?
      modifies this
      ensures Valid() && View() == old(View()).(procs := old(procs)[i := Idle], locks := old(locks) - {i})
    {
      Perform(Unlock(i));
    }

    /** QFile::readAll: one read after the other until the end of the file, or until one
        fails. */
    method ReadAll(i: nat, fails: bool) returns (contents: seq<byte>)
      requires Valid() && i < |procs| && Reads(procs[i]) && procs[i].got == []
      modifies this
      ensures Valid() && contents <= old(disk) && (!fails ==> contents == old(disk))
      ensures View() == old(View()).(procs := old(procs)[i := WithGot(old(procs)[i], contents)])
    {
      hide Reaches, LocksAgree;
      contents := [];
      var enough :| 0 <= enough <= |disk| && (!fails ==> enough == |disk|);
      while |contents| < enough
        invariant |contents| <= enough <= |disk| && Valid() && contents <= disk
        invariant View() == old(View()).(procs := old(procs)[i := WithGot(old(procs)[i], contents)])
        decreases enough - |contents|
      {
        var k :| 0 < k <= enough - |contents|;
        Perform(ReadChunk(i, k));
        contents := contents + disk[|contents|..|contents| + k];
      }
    }

    /** Writing `data` to the truncated file, all of it or, if the write fails, some of it. */
    method Send(i: nat, data: seq<byte>, origin: Origin, fails: bool)
      requires Valid() && i < |procs| && procs[i] == Writing(data, 0, origin) && disk == []
      modifies this
      ensures Valid() && disk <= data && (!fails ==> disk == data)
      ensures View() == old(View()).(disk := disk, procs := old(procs)[i := Writing(data, |disk|, origin)])
    {
      hide Reaches, LocksAgree;
      var sent, enough :| 0 == sent <= enough <= |data| && (!fails ==> enough == |data|);
      while sent < enough
        invariant sent <= enough && disk == data[..sent] && Valid()
        invariant View() == old(View()).(disk := disk, procs := old(procs)[i := Writing(data, sent, origin)])
      {
        var k :| 0 < k <= enough - sent;
        Perform(WriteChunk(i, k));
        sent := sent + k;
      }
    }

    /** The part of readContentsWithLock under the lock; a failing read goes unnoticed. */
    method ReadContents(i: nat, faults: Faults) returns (ok: bool, contents: seq<byte>)
      requires Valid() && i < |procs| && procs[i].ReadLocked?
      modifies this
      ensures Valid() && ok == !faults.reopen && contents <= old(disk)
      ensures ok && !faults.read ==> contents == old(disk)
      ensures View() == old(View()).(procs := old(procs)[i := Leaving],
                                     log := old(log) + ReadEntries(i, ok, faults, contents))
    {
      hide Reaches, LocksAgree;
      if faults.reopen {
        Perform(OpenFails(i));
        return false, [];
      }
      Perform(Begin(i));
      contents := ReadAll(i, faults.read);
      if faults.read {
        Perform(ReadFails(i));
      } else {
        Perform(EndRead(i));
      }
      assert procs == old(procs)[i := Leaving];
      return true, contents;
    }

    /** writeContents: truncate and write. Only a write that reports an error makes it fail. */
    method WriteContents(i: nat, data: seq<byte>, origin: Origin, faults: Faults) returns (ok: bool)
      requires Valid() && i < |procs| && procs[i] == Prepared(data, origin)
      modifies this
      ensures Valid() && ok == (!faults.reopen && faults.write != Refused)
      ensures faults.reopen ==> disk == old(disk) && log == old(log)
      ensures !faults.reopen ==> disk <= data && (faults.write == Whole ==> disk == data)
      ensures !faults.reopen ==>
        log == old(log) + if faults.write == Whole then [WriteEntry(i, data, origin)] else [Torn(i, disk)]
      ensures View() == old(View()).(procs := old(procs)[i := Leaving], disk := disk, log := log)
    {
      hide Reaches, LocksAgree;
      if faults.reopen {
        Perform(OpenFails(i));
        return false;
      }
      Perform(Truncate(i));
      Send(i, data, origin, faults.write != Whole);
      if faults.write == Whole {
        Perform(EndWrite(i));
      } else {
        Perform(WriteFails(i));
      }
      assert procs == old(procs)[i := Leaving];
      return faults.write != Refused;
    }

    /** A process is in the lock table exactly while it is at work under a lock. */
    lemma IdleHoldsNone(i: nat)
      requires Valid() && i < |procs| && procs[i].Idle?
      ensures i !in locks
    {
      assert LockFits(procs[i], locks, i);
    }

    /** readContentsWithLock, run by process i without interruption, up to its end or until it
        has to wait. */
    method ReadContentsWithLock(i: nat, faults: Faults) returns (ok: bool, contents: seq<byte>)
      requires Valid() && i < |procs| && procs[i].Idle?
      modifies this
      ensures Valid() && contents <= old(disk) && (ok && !faults.read ==> contents == old(disk))
      ensures var refused := !old(present) || faults.open || faults.lock;
        var waiting := !refused && !Grants(old(locks), i, SharedLock);
        && ok == (!refused && !waiting && !faults.reopen)
        && View() == if waiting then old(View()).(procs := old(procs)[i := WantsRead])
                     else old(View()).(log := old(log) + ReadEntries(i, ok, faults, contents))
    {
      hide Reaches, LocksAgree;
      IdleHoldsNone(i);
      var result := CreateShareLock(i, faults);
      if result != Held {
        return false, [];
      }
      ok, contents := ReadContents(i, faults);
      Release(i);
      assert procs == old(procs) && locks == old(locks);
    }

    /** writeContentsWithLock, likewise. */
    method WriteContentsWithLock(i: nat, text: string, faults: Faults) returns (ok: bool)
      requires Valid() && i < |procs| && procs[i].Idle?
      modifies this
      ensures Valid()
      ensures var refused := faults.open || faults.lock;
        var waiting := !refused && !Grants(old(locks), i, ExclusiveLock);
        && ok == (!refused && !waiting && !faults.reopen && faults.write != Refused)
        && present == (old(present) || !faults.open) && locks == old(locks)
        && procs == (if waiting then old(procs)[i := WantsWrite(Put(Payload(text)))] else old(procs))
        && (refused || waiting || faults.reopen ==> disk == old(disk) && log == old(log))
        && (!refused && !waiting && !faults.reopen ==>
              && disk <= Payload(text) && (faults.write == Whole ==> disk == Payload(text))
              && log == old(log) + if faults.write == Whole then [Wrote(i, disk)] else [Torn(i, disk)])
    {
      hide Reaches, LocksAgree;
      IdleHoldsNone(i);
      var data := Payload(text);
      var result := CreateExclusiveLock(i, Put(data), faults);
      if result != Held {
        return false;
      }
      ok := WriteContents(i, data, Plain, faults);
      Release(i);
      assert procs == old(procs) && locks == old(locks);
    }

    /** The reading half of KV::set. That the open or the read fails goes unnoticed. */
    method ReadToChange(i: nat, change: Change, unread: bool, fails: bool)
      returns (seen: seq<byte>, origin: Origin)
      requires Valid() && i < |procs| && procs[i] == ModifyLocked(change)
      modifies this
      ensures Valid() && seen <= old(disk) && (unread ==> seen == [])
      ensures !unread && !fails ==> seen == old(disk)
      ensures origin == if unread || fails then Plain else Changed(change, seen)
      ensures View() == old(View()).(procs := old(procs)[i := Prepared(change(seen), origin)])
    {
      hide Reaches, LocksAgree;
      if unread {
        Perform(OpenFails(i));
        return [], Plain;
      }
      Perform(Begin(i));
      seen := ReadAll(i, fails);
      if fails {
        Perform(ReadFails(i));
        origin := Plain;
      } else {
        Perform(EndRead(i));
        origin := Changed(change, seen);
      }
      assert procs == old(procs)[i := Prepared(change(seen), origin)];
    }

    /** KV::set: read, change and write back under one lock. What has been read when the first
        open or the read fails is changed all the same. */
    method SetWithLock(i: nat, change: Change, unread: bool, faults: Faults) returns (ok: bool)
      requires Valid() && i < |procs| && procs[i].Idle?
      modifies this
      ensures Valid() && present == (old(present) || !faults.open) && locks == old(locks)
      ensures var refused := faults.open || faults.lock;
        var waiting := !refused && !Grants(old(locks), i, ExclusiveLock);
        && ok == (!refused && !waiting && !faults.reopen && faults.write != Refused)
        && procs == (if waiting then old(procs)[i := WantsWrite(Modify(change))] else old(procs))
        && (refused || waiting || faults.reopen ==> disk == old(disk) && log == old(log))
        && (!refused && !waiting && !faults.reopen ==> Rewrote(i, change, unread, faults, old(disk), old(log)))
    {
      hide Reaches, LocksAgree, Rewrote;
      IdleHoldsNone(i);
      var result := CreateExclusiveLock(i, Modify(change), faults);
      if result != Held {
        return false;
      }
      var seen, origin := ReadToChange(i, change, unread, faults.read);
      ok := WriteContents(i, change(seen), origin, faults);
      Release(i);
      assert procs == old(procs) && locks == old(locks);
      if !faults.reopen {
        RewroteIf(i, change, unread, faults, old(disk), old(log), seen, origin);
      }
    }

    /** The file holds the changed contents, or, if a call failed, the start of what was made of
        the part that had been read. */
    ghost predicate Rewrote(
        i: nat, change: Change, unread: bool, faults: Faults, before: seq<byte>, history: seq<Entry>)
      reads this
    {
      && (!unread && !faults.read && faults.write == Whole ==>
            disk == change(before) && log == history + [Modified(i, change, before)])
      && exists seen :: seen <= before && (unread ==> seen == []) && (!unread && !faults.read ==> seen == before)
                        && disk <= change(seen) && (faults.write == Whole ==> disk == change(seen))
    }

    lemma RewroteIf(i: nat, change: Change, unread: bool, faults: Faults, before: seq<byte>, history: seq<Entry>,
                    seen: seq<byte>, origin: Origin)
      requires seen <= before && (unread ==> seen == []) && (!unread && !faults.read ==> seen == before)
      requires origin == if unread || faults.read then Plain else Changed(change, seen)
      requires disk <= change(seen) && (faults.write == Whole ==> disk == change(seen))
      requires log == history + if faults.write == Whole then [WriteEntry(i, change(seen), origin)] else [Torn(i, disk)]
      ensures Rewrote(i, change, unread, faults, before, history)
    {
    }

    /** Unless the writer has to wait, what is written can be read back whole, by any other
        process or the same; for ASCII that is the text itself. */
    method WriteThenRead(i: nat, j: nat, text: string) returns (done: bool, contents: seq<byte>)
      requires Valid() && i < |procs| && procs[i].Idle? && j < |procs| && procs[j].Idle?
      modifies this
      ensures done == Grants(old(locks), i, ExclusiveLock)
      ensures done ==> contents == Payload(text) && (contents == Encoded(text) <==> IsAscii(text))
    {
      var none := Faults(false, false, false, false, Whole);
      IdleHoldsNone(i);
      done := WriteContentsWithLock(i, text, none);
      contents := [];
      if done {
        var read, got := ReadContentsWithLock(j, none);
        PayloadIsWholeTextIffAscii(text);
        contents := got;
      }
    }
  }
}
