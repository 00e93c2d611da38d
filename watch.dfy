/**
 * The receive watch (src/receive/watchLoop.ts): a lock file keeps a second watcher from
 * starting, a one-way stop flag set by SIGINT or SIGTERM ends the loop, and the loop runs
 * one receive cycle after another with a sleep in between, releasing the lock when it ends.
 *
 * Whether a process is alive is given from outside. Signals are an input: `arrivals[n]` are
 * the signals delivered before the `n`-th point where the loop looks at the flag, and the
 * loop looks at it after every cycle and after every sleep.
 */
module Watch {
  import opened Wrappers
  import opened Text
  import opened FileSystem
  import opened Records
  import opened ArchiveNaming
  import opened Polling
  import opened Env
  import opened ReceiveCycle

  // ---------------------------------------------------------------- the lock file

  /** The lock file's content: `{ pid, startedAt }`. */
  function LockJson(pid: int, startedAt: string): Json {
    JObj(map["pid" := JInt(pid), "startedAt" := JStr(startedAt)])
  }

  /**
   * `readPidFromLockFile` (src/receive/watchLoop.ts:27-40): the integer `pid` of the lock
   * file, or nothing when the file cannot be read or parsed or has no integer `pid`.
   */
  function ReadPidFromLockFile(fs: Fs, codec: JsonCodec, lockPath: Path): (r: Option<int>)
    ensures r.Some? <==>
      && lockPath in fs && fs[lockPath].File?
      && codec.decode(fs[lockPath].data).Some?
      && Member(codec.decode(fs[lockPath].data).value, "pid").Some?
      && Member(codec.decode(fs[lockPath].data).value, "pid").value.JInt?
    ensures r.Some? ==> Member(codec.decode(fs[lockPath].data).value, "pid") == Some(JInt(r.value))
  {
    match ReadFile(fs, lockPath)
    case Err(_) => None
    case Ok(data) =>
      match codec.decode(data)
      case None => None
      case Some(j) =>
        match Member(j, "pid")
        case Some(JInt(n)) => Some(n)
        case _ => None
  }

  /** A lock written by a process reads back as that process's pid. */
  lemma OwnLockNamesOwner(fs: Fs, codec: JsonCodec, lockPath: Path, pid: int, startedAt: string)
    requires RoundTrips(codec)
    requires lockPath in fs && fs[lockPath] == File(codec.encode(LockJson(pid, startedAt)))
    ensures ReadPidFromLockFile(fs, codec, lockPath) == Some(pid)
  {
    assert codec.decode(codec.encode(LockJson(pid, startedAt))) == Some(LockJson(pid, startedAt));
  }

  /** `isProcessAlive`: `process.kill(pid, 0)` succeeds or is refused (alive), finds no process, or fails otherwise. */
  datatype Liveness = Alive | Dead | ProbeError

  datatype LockError =
    | LockIo(error: IoError)
    | AlreadyRunning(pid: int)   // "Receive watch is already running with PID ..."
    | ProbeFailed(pid: int)      // the liveness probe threw

  /** A lock that may be taken over: its owner cannot be named or is gone. */
  predicate Stale(fs: Fs, codec: JsonCodec, lockPath: Path, alive: int -> Liveness) {
    var owner := ReadPidFromLockFile(fs, codec, lockPath);
    owner.None? || alive(owner.value) == Dead
  }

  /** After the parent of a lock file is made, the lock file is there only if it was before. */
  lemma MkdirParentKeepsLock(d: Disk, lockPath: Path)
    requires WellFormed(d.fs) && MkdirAll(d, Parent(lockPath)).Ok?
    ensures var d1 := MkdirAll(d, Parent(lockPath)).value;
      lockPath != [] ==> (lockPath in d1.fs <==> lockPath in d.fs)
    ensures lockPath in d.fs && lockPath != [] ==> MkdirAll(d, Parent(lockPath)).value == d
  {
  }

  /**
   * `acquireWatchLock` (src/receive/watchLoop.ts:42-68): the lock file is created
   * exclusively with this process's pid; a lock held by a live process is an error and is
   * left as it is; a stale lock is removed and the acquisition tried once more, which then
   * succeeds. `attempts` counts the exclusive creations tried.
   */
  method AcquireWatchLock(d: Disk, codec: JsonCodec, lockPath: Path, pid: int, startedAt: string, alive: int -> Liveness)
    returns (d': Disk, r: Result<(), LockError>, attempts: nat)
    requires WellFormed(d.fs)
    ensures WellFormed(d'.fs)
    ensures 1 <= attempts <= 2 || (r.Err? && attempts == 0)
    ensures r.Ok? ==> lockPath in d'.fs && d'.fs[lockPath] == File(codec.encode(LockJson(pid, startedAt)))
    ensures r.Ok? ==> forall q :: q in d.fs && q != lockPath ==> q in d'.fs && d'.fs[q] == d.fs[q]
    ensures lockPath !in d.fs && MkdirAll(d, Parent(lockPath)).Ok? ==> r.Ok? && attempts == 1
    ensures lockPath in d.fs && lockPath != [] && !Stale(d.fs, codec, lockPath, alive) ==> d' == d && r.Err?
    ensures r == Err(AlreadyRunning(pid)) ==> d' == d && ReadPidFromLockFile(d.fs, codec, lockPath) == Some(pid) && alive(pid) == Alive
    ensures lockPath in d.fs && d.fs[lockPath].File? && Stale(d.fs, codec, lockPath, alive) ==>
      && r.Ok? && attempts == 2
      && d'.log == d.log + [Removed(lockPath), Wrote(lockPath)]
    ensures r.Err? && r.error.LockIo? && lockPath !in d.fs ==> lockPath !in d'.fs
    ensures lockPath !in d.fs && lockPath != [] && Parent(lockPath) in d.fs && d.fs[Parent(lockPath)] == Dir ==>
      d'.log == d.log + [Wrote(lockPath)]
    decreases if lockPath in d.fs then 1 else 0
  {
    var made := MkdirAll(d, Parent(lockPath));
    if made.Err? {
      return d, Err(LockIo(made.error)), 0;
    }
    MkdirParentKeepsLock(d, lockPath);
    var d1 := made.value;
    var created := CreateExclusive(d1, lockPath, codec.encode(LockJson(pid, startedAt)));
    if created.Ok? {
      return created.value, Ok(()), 1;
    }
    if created.error != AlreadyExists {
      return d1, Err(LockIo(created.error)), 1;
    }
    var existingPid := ReadPidFromLockFile(d1.fs, codec, lockPath);
    if existingPid.Some? {
      match alive(existingPid.value)
      case Alive => return d1, Err(AlreadyRunning(existingPid.value)), 1;
      case ProbeError => return d1, Err(ProbeFailed(existingPid.value)), 1;
      case Dead =>
    }
    var removed := RemoveForce(d1, lockPath);
    if removed.Err? {
      return d1, Err(LockIo(removed.error)), 1;
    }
    var d2 := removed.value;
    MkdirAllChildKeeps(d2, lockPath);
    var retried;
    d', r, retried := AcquireWatchLock(d2, codec, lockPath, pid, startedAt, alive);
    attempts := retried + 1;
  }

  /** Once a stale lock is removed, its parent is still there, so the retry makes no directory. */
  lemma MkdirAllChildKeeps(d: Disk, lockPath: Path)
    requires WellFormed(d.fs) && lockPath != [] && Parent(lockPath) in d.fs && d.fs[Parent(lockPath)] == Dir
    ensures MkdirAll(d, Parent(lockPath)) == Ok(d)
  {
  }

  // ---------------------------------------------------------------- the stop flag

  datatype Signal = SIGINT | SIGTERM

  /** `shouldStop` and the warnings `stop` logs. */
  class StopFlag {
    var shouldStop: bool
    var warnings: seq<Signal>

    /** Only the first signal is logged, and it is what raised the flag. */
    predicate Valid()
      reads this
    {
      |warnings| <= 1 && (shouldStop <==> |warnings| == 1)
    }

    constructor ()
      ensures Valid() && !shouldStop && warnings == []
    {
      shouldStop := false;
      warnings := [];
    }

    /** `stop(signal)` (src/receive/watchLoop.ts:81-86): raises the flag once; later signals change nothing. */
    method Stop(signal: Signal)
      requires Valid()
      modifies this
      ensures Valid() && shouldStop
      ensures old(shouldStop) ==> warnings == old(warnings)
      ensures !old(shouldStop) ==> warnings == [signal]
    {
      if !shouldStop {
        shouldStop := true;
        warnings := warnings + [signal];
      }
    }

    /** The handlers run for every signal of a batch, in order. */
    method Deliver(batch: seq<Signal>)
      requires Valid()
      modifies this
      ensures Valid()
      ensures shouldStop <==> old(shouldStop) || batch != []
      ensures old(shouldStop) || batch == [] ==> warnings == old(warnings)
      ensures !old(shouldStop) && batch != [] ==> warnings == [batch[0]]
    {
      for j := 0 to |batch|
        invariant Valid()
        invariant shouldStop <==> old(shouldStop) || j > 0
        invariant old(shouldStop) || j == 0 ==> warnings == old(warnings)
        invariant !old(shouldStop) && j > 0 ==> warnings == [batch[0]]
      {
        Stop(batch[j]);
      }
    }
  }

  // ---------------------------------------------------------------- the loop

  /** What the watch does, in order. */
  datatype WatchEvent =
    | HandlersOn
    | Cycle(ok: bool)                 // one `receiveOnce`, failed or not
    | Observed(signals: seq<Signal>)  // the flag looked at, after these signals arrived
    | Slept(milliseconds: int)
    | HandlersOff
    | LockReleased

  /** No signal was seen in these events. */
  predicate Quiet(trace: seq<WatchEvent>) {
    forall e :: e in trace && e.Observed? ==> e.signals == []
  }

  datatype WatchError =
    | ConfigUnreadable(pollingError: PollingError)
    | LockUnavailable(lockError: LockError)

  /** Everything one receive cycle needs apart from the disk. */
  datatype ReceiveSetup = ReceiveSetup(
    codec: JsonCodec, decodeUtf8: seq<byte> -> string, dotenv: seq<byte> -> RawEnv, isEmail: string -> bool,
    pollingFile: Path, envFile: Path, messagesDir: Path)

  /** The loop ended by a signal: quiet until the last look at the flag, then the release. */
  predicate StoppedBySignal(trace: seq<WatchEvent>) {
    && |trace| >= 5
    && trace[0] == HandlersOn && trace[1].Cycle?
    && trace[|trace| - 3].Observed? && trace[|trace| - 3].signals != []
    && trace[|trace| - 2] == HandlersOff && trace[|trace| - 1] == LockReleased
    && Quiet(trace[..|trace| - 3])
  }

  /** What the loop itself does: cycles, looks at the flag, and sleeps of the configured length. */
  predicate InLoop(e: WatchEvent, interval: int) {
    e.Cycle? || e.Observed? || e == Slept(interval * 1000)
  }

  /** Loop events so far: a cycle first, then only what the loop does. */
  predicate LoopSoFar(events: seq<WatchEvent>, interval: int) {
    && (events != [] ==> events[0].Cycle?)
    && (forall e :: e in events ==> InLoop(e, interval))
  }

  /** The loop's events: a signal seen only at the last look. */
  predicate LoopStopped(events: seq<WatchEvent>, interval: int) {
    && |events| >= 2 && LoopSoFar(events, interval)
    && events[|events| - 1].Observed? && events[|events| - 1].signals != []
    && Quiet(events[..|events| - 1])
  }

  /**
   * One pass of the loop: a cycle, then a look at the flag; if it is still down, a sleep
   * and another look.
   */
  predicate RoundShape(ev: seq<WatchEvent>, interval: int, stopped: bool) {
    || (stopped && |ev| == 2 && ev[0].Cycle? && ev[1].Observed? && ev[1].signals != [])
    || (|ev| == 4 && ev[0].Cycle? && ev[1] == Observed([]) && ev[2] == Slept(interval * 1000)
        && ev[3].Observed? && (stopped <==> ev[3].signals != []))
  }

  lemma RoundExtends(events: seq<WatchEvent>, ev: seq<WatchEvent>, interval: int, stopped: bool)
    requires LoopSoFar(events, interval) && Quiet(events) && RoundShape(ev, interval, stopped)
    ensures LoopSoFar(events + ev, interval)
    ensures stopped ==> LoopStopped(events + ev, interval)
    ensures !stopped ==> Quiet(events + ev)
  {
    var all := events + ev;
    if stopped {
      assert all[..|all| - 1] == events + ev[..|ev| - 1];
    }
  }

  /** `receiveOnce` as the watch sees it: whether it succeeded, with the archive only growing. */
  method ReceiveCycleOnce(d: Disk, setup: ReceiveSetup, mailbox: string, clock: nat -> string, server: Mailserver)
    returns (d': Disk, ok: bool)
    requires WellFormed(d.fs)
    requires forall i: nat :: IsIsoTimestamp(clock(i))
    ensures WellFormed(d'.fs) && Extends(d.fs, d'.fs)
  {
    var r;
    d', r := ReceiveOnce(d, setup.codec, setup.decodeUtf8, setup.dotenv, setup.isEmail,
                         setup.pollingFile, setup.envFile, setup.messagesDir,
                         clock, server, Some(mailbox));
    ok := r.Ok?;
  }

  /** One pass of `while (!shouldStop)` (src/receive/watchLoop.ts:100-116). */
  method Round(d: Disk, setup: ReceiveSetup, lockPath: Path, mailbox: string, interval: int,
               clock: nat -> string, server: Mailserver, arrivals: seq<seq<Signal>>, pos: nat, flag: StopFlag)
    returns (d': Disk, ev: seq<WatchEvent>, pos': nat)
    requires WellFormed(d.fs) && lockPath in d.fs && d.fs[lockPath].File?
    requires forall i: nat :: IsIsoTimestamp(clock(i))
    requires pos < |arrivals| && arrivals[|arrivals| - 1] != []
    requires flag.Valid() && !flag.shouldStop
    modifies flag
    ensures WellFormed(d'.fs) && lockPath in d'.fs && d'.fs[lockPath].File?
    ensures flag.Valid() && pos < pos' <= |arrivals|
    ensures !flag.shouldStop ==> pos' < |arrivals|
    ensures RoundShape(ev, interval, flag.shouldStop)
  {
    var ok;
    d', ok := ReceiveCycleOnce(d, setup, mailbox, clock, server);
    ev := [Cycle(ok)];
    var batch := arrivals[pos];
    flag.Deliver(batch);
    ev := ev + [Observed(batch)];
    pos' := pos + 1;
    if !flag.shouldStop {
      NextBatchExists(arrivals, pos);
      batch := arrivals[pos'];
      ev := ev + [Slept(interval * 1000)];
      flag.Deliver(batch);
      ev := ev + [Observed(batch)];
      if !flag.shouldStop {
        NextBatchExists(arrivals, pos');
      }
      pos' := pos' + 1;
    }
  }

  /** A quiet batch is never the last one, since the last one holds a signal. */
  lemma NextBatchExists(arrivals: seq<seq<Signal>>, pos: nat)
    requires pos < |arrivals| && arrivals[|arrivals| - 1] != [] && arrivals[pos] == []
    ensures pos + 1 < |arrivals|
  {
  }

  /**
   * The `while (!shouldStop)` loop (src/receive/watchLoop.ts:99-117): rounds run until a
   * signal is seen; a failed cycle does not end the loop. The lock file stays in place.
   */
  method RunCycles(d: Disk, setup: ReceiveSetup, lockPath: Path, mailbox: string, interval: int,
                   clocks: nat -> nat -> string, servers: nat -> Mailserver,
                   arrivals: seq<seq<Signal>>, flag: StopFlag)
    returns (d': Disk, events: seq<WatchEvent>)
    requires WellFormed(d.fs) && lockPath in d.fs && d.fs[lockPath].File?
    requires forall k: nat, i: nat :: IsIsoTimestamp(clocks(k)(i))
    requires arrivals != [] && arrivals[|arrivals| - 1] != []
    requires flag.Valid() && !flag.shouldStop
    modifies flag
    ensures WellFormed(d'.fs) && lockPath in d'.fs && d'.fs[lockPath].File?
    ensures flag.Valid() && flag.shouldStop
    ensures LoopStopped(events, interval)
  {
    d', events := d, [];
    var pos, k := 0, 0;
    while !flag.shouldStop
      invariant flag.Valid()
      invariant WellFormed(d'.fs) && lockPath in d'.fs && d'.fs[lockPath].File?
      invariant pos <= |arrivals| && (!flag.shouldStop ==> pos < |arrivals|)
      invariant LoopSoFar(events, interval)
      invariant !flag.shouldStop ==> Quiet(events)
      invariant flag.shouldStop ==> LoopStopped(events, interval)
      decreases |arrivals| - pos
    {
      var ev;
      d', ev, pos := Round(d', setup, lockPath, mailbox, interval, clocks(k), servers(k), arrivals, pos, flag);
      RoundExtends(events, ev, interval, flag.shouldStop);
      events := events + ev;
      k := k + 1;
    }
  }

  /** The loop's events between attaching and detaching the handlers make a run stopped by a signal. */
  lemma Wrapped(events: seq<WatchEvent>, interval: int)
    requires LoopStopped(events, interval)
    ensures var trace := [HandlersOn] + events + [HandlersOff, LockReleased];
      && StoppedBySignal(trace)
      && forall e :: e in trace && e.Slept? ==> e.milliseconds == interval * 1000
  {
    var trace := [HandlersOn] + events + [HandlersOff, LockReleased];
    var n := |events| - 1;
    assert trace[..|trace| - 3] == [HandlersOn] + events[..n];
    assert forall e :: e in events ==> InLoop(e, interval);
  }

  /**
   * `watchLoop` (src/receive/watchLoop.ts:76-124): the polling config is read before the
   * lock is taken; then cycles run until a signal raises the stop flag, with a sleep of the
   * configured interval after every cycle that did not see one; the handlers are detached
   * and the lock removed at the end. `clocks(k)` and `servers(k)` are the clock and the IMAP
   * session of the `k`-th cycle.
   */
  method WatchLoop(d: Disk, setup: ReceiveSetup, lockPath: Path, pid: int, startedAt: string,
                   alive: int -> Liveness, clocks: nat -> nat -> string, servers: nat -> Mailserver,
                   arrivals: seq<seq<Signal>>)
    returns (d': Disk, r: Result<(), WatchError>, trace: seq<WatchEvent>, warnings: seq<Signal>)
    requires WellFormed(d.fs)
    requires forall k: nat, i: nat :: IsIsoTimestamp(clocks(k)(i))
    requires arrivals != [] && arrivals[|arrivals| - 1] != []
    ensures WellFormed(d'.fs)
    ensures ReadPollingConfig(d.fs, setup.codec, setup.pollingFile).Err? ==>
      r == Err(ConfigUnreadable(ReadPollingConfig(d.fs, setup.codec, setup.pollingFile).error)) && d' == d && trace == []
    ensures r.Err? && r.error.LockUnavailable? ==> trace == [] && warnings == []
    ensures r.Ok? ==> lockPath !in d'.fs && StoppedBySignal(trace) && |warnings| == 1
    ensures r.Ok? ==> forall e :: e in trace && e.Slept? ==>
      e.milliseconds == ReadPollingConfig(d.fs, setup.codec, setup.pollingFile).value.intervalSeconds * 1000
    ensures r.Ok? ==> forall i, j :: 0 <= i < j < |trace| && trace[i].Observed? && trace[i].signals != [] ==>
      !trace[j].Cycle? && !trace[j].Slept?
  {
    var config := ReadPollingConfig(d.fs, setup.codec, setup.pollingFile);
    if config.Err? {
      return d, Err(ConfigUnreadable(config.error)), [], [];
    }
    var d1, lock, _ := AcquireWatchLock(d, setup.codec, lockPath, pid, startedAt, alive);
    if lock.Err? {
      return d1, Err(LockUnavailable(lock.error)), [], [];
    }
    var flag := new StopFlag();
    var d2, events := RunCycles(d1, setup, lockPath, config.value.mailbox, config.value.intervalSeconds,
                                clocks, servers, arrivals, flag);
    trace := [HandlersOn] + events + [HandlersOff];
    var released := RemoveForce(d2, lockPath);
    d' := released.value;
    trace := trace + [LockReleased];
    warnings := flag.warnings;
    r := Ok(());
    Wrapped(events, config.value.intervalSeconds);
    assert trace == [HandlersOn] + events + [HandlersOff, LockReleased];
    forall i, j | 0 <= i < j < |trace| && trace[i].Observed? && trace[i].signals != []
      ensures !trace[j].Cycle? && !trace[j].Slept?
    {
      NoCycleAfterStop(trace, i, j);
    }
  }

  /** Once a signal is seen, no cycle runs and no sleep starts. */
  lemma NoCycleAfterStop(trace: seq<WatchEvent>, i: nat, j: nat)
    requires StoppedBySignal(trace)
    requires i < j < |trace| && trace[i].Observed? && trace[i].signals != []
    ensures !trace[j].Cycle? && !trace[j].Slept?
  {
  }
}
