/** Sharing an I2C bus with other controllers: waiting for quiet, telling a wedged line from
    traffic, and retrying transfers. Source: i2c_bus_lock.c. */
module I2cBus {
  import opened Common

  const QUIET_GUARD_MS: nat := 3
  const QUIET_TIMEOUT_MS: nat := 25
  const STUCK_CONFIRM_MS: nat := 25
  const CLASSIFY_TIMEOUT_MS: nat := 30

  datatype Lines = ReadError | Lines(scl: bool, sda: bool)

  /** One poll: the uptime when the loop condition is evaluated and when the lines are sampled,
      the lines, and whether the activity guard has elapsed. */
  datatype Sample = Sample(checked: nat, now: nat, lines: Lines, guardElapsed: bool)

  datatype LineState = Idle | SdaStuck | SclStuck | Active

  datatype Status = Success | EBusy | EAgain | ETimedOut | EIo | EInval | ENoDev | Other(code: int)

  /** Uptime differences as the 32-bit clock computes them. */
  function Diff(a: nat, b: nat): nat { (a - b) % U32 }

  /** The uptime never runs backwards. */
  ghost predicate Monotone(trace: seq<Sample>) {
    forall i, j :: 0 <= i <= j < |trace| ==> trace[i].now <= trace[j].now
  }

  // ---- Classifying the lines ----

  /** Where the run of equal samples that ends at `n` began. */
  function RunStart(trace: seq<Sample>, n: nat): (j: nat)
    requires n < |trace|
    ensures j <= n && forall k :: j <= k <= n ==> trace[k].lines == trace[n].lines
  {
    if n == 0 || trace[n - 1].lines != trace[n].lines then n else RunStart(trace, n - 1)
  }

  datatype Verdict = Undecided | Decided(state: LineState)

  /** What sample `n` decides. */
  function Judge(trace: seq<Sample>, n: nat): Verdict
    requires n < |trace|
  {
    match trace[n].lines
    case ReadError => Decided(Active)
    case Lines(scl, sda) =>
      var stable := Diff(trace[n].now, trace[RunStart(trace, n)].now);
      if scl && sda && stable >= QUIET_GUARD_MS then Decided(Idle)
      else if stable >= STUCK_CONFIRM_MS then Decided(if scl then SdaStuck else SclStuck)
      else Undecided
  }

  /** The first decision within the time allowed, from poll `i` on; without one the bus counts
      as active. */
  function Classify(started: nat, trace: seq<Sample>, i: nat): LineState
    decreases |trace| - i
  {
    if i >= |trace| || Diff(trace[i].checked, started) >= CLASSIFY_TIMEOUT_MS then Active
    else match Judge(trace, i)
      case Decided(s) => s
      case Undecided => Classify(started, trace, i + 1)
  }

  method ClassifyLines(started: nat, trace: seq<Sample>) returns (result: LineState)
    ensures result == Classify(started, trace, 0)
  {
    result := Active;
    var since := started;
    var previous := Lines(false, false);
    var havePrevious, done := false, false;
    var i := 0;
    while !done && i < |trace| && Diff(trace[i].checked, started) < CLASSIFY_TIMEOUT_MS
      invariant 0 <= i <= |trace|
      invariant if done then result == Classify(started, trace, 0)
                else result == Active && Classify(started, trace, 0) == Classify(started, trace, i)
      invariant !done ==> havePrevious == (i > 0) && previous.Lines?
      invariant !done && i > 0 ==> previous == trace[i - 1].lines && since == trace[RunStart(trace, i - 1)].now
      decreases |trace| - i, if done then 0 else 1
    {
      var now, lines := trace[i].now, trace[i].lines;
      if lines.ReadError? {
        done := true;
      } else {
        if !havePrevious || lines.scl != previous.scl || lines.sda != previous.sda {
          previous := lines;
          since := now;
          havePrevious := true;
        }
        var stable := Diff(now, since);
        if lines.scl && lines.sda && stable >= QUIET_GUARD_MS {
          result := Idle;
          done := true;
        } else if stable >= STUCK_CONFIRM_MS {
          result := if lines.scl then SdaStuck else SclStuck;
          done := true;
        }
        if !done { i := i + 1; }
      }
    }
  }

  /** Samples `j` to `n` all show the same lines, and span at least `ms`. */
  ghost predicate HeldFor(trace: seq<Sample>, j: nat, n: nat, lines: Lines, ms: nat) {
    && j <= n < |trace|
    && (forall k :: j <= k <= n ==> trace[k].lines == lines)
    && trace[n].now - trace[j].now >= ms
  }

  lemma DiffIsAtMostElapsed(a: nat, b: nat)
    requires a >= b
    ensures Diff(a, b) <= a - b
  {}

  /** A decision other than "active" rests on an unbroken run of equal samples: 25 ms of SCL high
      and SDA low for a stuck SDA, 25 ms of SCL low for a stuck SCL, 3 ms of both high for
      idle. */
  lemma {:induction false} DecisionHasEvidence(started: nat, trace: seq<Sample>, i: nat) returns (j: nat, n: nat)
    requires Monotone(trace)
    ensures Classify(started, trace, i) == SdaStuck ==> HeldFor(trace, j, n, Lines(true, false), 25)
    ensures Classify(started, trace, i) == SclStuck ==>
      || HeldFor(trace, j, n, Lines(false, true), 25)
      || HeldFor(trace, j, n, Lines(false, false), 25)
    ensures Classify(started, trace, i) == Idle ==> HeldFor(trace, j, n, Lines(true, true), 3)
    decreases |trace| - i
  {
    j, n := 0, 0;
    if i < |trace| && Diff(trace[i].checked, started) < CLASSIFY_TIMEOUT_MS {
      if Judge(trace, i).Undecided? {
        j, n := DecisionHasEvidence(started, trace, i + 1);
      } else {
        j, n := RunStart(trace, i), i;
        DiffIsAtMostElapsed(trace[n].now, trace[j].now);
      }
    }
  }

  /** No 25 ms pass without a sample that shows other lines. */
  ghost predicate Interrupted(trace: seq<Sample>, lines: Lines) {
    forall j, n :: 0 <= j <= n < |trace| && trace[n].now - trace[j].now >= 25 ==>
      exists k :: j <= k <= n && trace[k].lines != lines
  }

  /** Traffic is never taken for a stuck line. */
  lemma TrafficIsNotStuck(started: nat, trace: seq<Sample>)
    requires Monotone(trace)
    ensures Interrupted(trace, Lines(true, false)) ==> Classify(started, trace, 0) != SdaStuck
    ensures Interrupted(trace, Lines(false, true)) && Interrupted(trace, Lines(false, false)) ==>
      Classify(started, trace, 0) != SclStuck
  {
    var j, n := DecisionHasEvidence(started, trace, 0);
    NotHeld(trace, Lines(true, false), j, n);
    NotHeld(trace, Lines(false, true), j, n);
    NotHeld(trace, Lines(false, false), j, n);
  }

  lemma NotHeld(trace: seq<Sample>, lines: Lines, j: nat, n: nat)
    ensures Interrupted(trace, lines) ==> !HeldFor(trace, j, n, lines, 25)
  {}

  lemma {:induction false} SteadyRunStart(trace: seq<Sample>, n: nat)
    requires n < |trace| && forall k :: 0 <= k <= n ==> trace[k].lines == trace[0].lines
    ensures RunStart(trace, n) == 0
  {
    if n > 0 { SteadyRunStart(trace, n - 1); }
  }

  /** Conversely, lines that show the same from the first poll on are found as soon as a poll in
      time sees enough of it: 3 ms of both high for idle, else 25 ms of a stuck line, SCL before
      SDA. */
  lemma {:induction false} SteadyLinesAreFound(started: nat, trace: seq<Sample>, scl: bool, sda: bool, n: nat, i: nat)
    requires i <= n < |trace| && Diff(trace[n].now, trace[0].now) >= if scl && sda then 3 else 25
    requires forall k :: 0 <= k <= n ==>
      trace[k].lines == Lines(scl, sda) && Diff(trace[k].checked, started) < 30
    ensures Classify(started, trace, i) == if !scl then SclStuck else if !sda then SdaStuck else Idle
    decreases n - i
  {
    SteadyRunStart(trace, i);
    if i < n { SteadyLinesAreFound(started, trace, scl, sda, n, i + 1); }
  }

  // ---- Waiting for quiet ----

  datatype Measuring = NotIdle | IdleSince(at: nat)

  /** How the wait ends, from poll `i` on. */
  function Quiet(started: nat, trace: seq<Sample>, i: nat, m: Measuring): Status
    decreases |trace| - i
  {
    if i >= |trace| || Diff(trace[i].checked, started) >= QUIET_TIMEOUT_MS then EBusy
    else match trace[i].lines
      case ReadError => EIo
      case Lines(scl, sda) =>
        if !(scl && sda && trace[i].guardElapsed) then Quiet(started, trace, i + 1, NotIdle)
        else if m.NotIdle? then Quiet(started, trace, i + 1, IdleSince(trace[i].now))
        else if Diff(trace[i].now, m.at) >= QUIET_GUARD_MS then Success
        else Quiet(started, trace, i + 1, m)
  }

  /** i2c1_wait_quiet: success means that both lines were seen high, and the last activity far
      enough back, at every poll of a run of at least 3 ms that ends now. */
  method WaitQuiet(started: nat, trace: seq<Sample>) returns (ret: Status, ghost j: nat, ghost n: nat)
    requires Monotone(trace)
    ensures ret == Quiet(started, trace, 0, NotIdle)
    ensures ret == Success ==>
      && HeldFor(trace, j, n, Lines(true, true), 3)
      && forall k :: j <= k <= n ==> trace[k].guardElapsed
  {
    ret, j, n := EBusy, 0, 0;
    var idleSince := started;
    var measuring := false;
    var i := 0;
    while ret == EBusy && i < |trace| && Diff(trace[i].checked, started) < QUIET_TIMEOUT_MS
      invariant 0 <= i <= |trace| && (ret == Success || ret == EBusy || ret == EIo)
      invariant Quiet(started, trace, 0, NotIdle) ==
        if ret == EBusy then Quiet(started, trace, i, if measuring then IdleSince(idleSince) else NotIdle) else ret
      invariant ret == EBusy && measuring ==>
        && j < i && idleSince == trace[j].now
        && forall k :: j <= k < i ==> trace[k].lines == Lines(true, true) && trace[k].guardElapsed
      invariant ret == Success ==>
        HeldFor(trace, j, n, Lines(true, true), 3) && forall k :: j <= k <= n ==> trace[k].guardElapsed
    {
      var s := trace[i];
      if s.lines.ReadError? {
        ret := EIo;
      } else if s.lines.scl && s.lines.sda && s.guardElapsed {
        if !measuring {
          idleSince := s.now;
          measuring := true;
          j := i;
        } else if Diff(s.now, idleSince) >= QUIET_GUARD_MS {
          DiffIsAtMostElapsed(s.now, trace[j].now);
          ret := Success;
          n := i;
        }
      } else {
        measuring := false;
      }
      i := i + 1;
    }
  }

  /** A poll made in time that can read the lines. */
  predicate Polled(started: nat, s: Sample) {
    s.lines.Lines? && (s.checked - started) % 0x1_0000_0000 < 25
  }

  predicate LooksQuiet(s: Sample) { s.lines == Lines(true, true) && s.guardElapsed }

  /** Polls `j` to `n` look quiet and span 3 ms, and the one before `j`, if any, does not. */
  ghost predicate QuietRun(started: nat, trace: seq<Sample>, j: nat, n: nat) {
    && j < n < |trace| && (trace[n].now - trace[j].now) % 0x1_0000_0000 >= 3
    && (forall k :: 0 <= k <= n ==> Polled(started, trace[k]))
    && (forall k :: j <= k <= n ==> LooksQuiet(trace[k]))
    && (j > 0 ==> !LooksQuiet(trace[j - 1]))
  }

  /** Conversely, a bus that falls quiet in time is found, whatever was on it before: 3 ms of
      quiet polls end the wait with success. */
  lemma {:induction false} QuietIsFound(started: nat, trace: seq<Sample>, j: nat, n: nat, i: nat, m: Measuring)
    requires QuietRun(started, trace, j, n) && i <= j && (i == j ==> m == NotIdle)
    ensures Quiet(started, trace, i, m) == Success
    decreases j - i
  {
    if i == j {
      GuardIsMeasured(started, trace, j, n, j + 1);
    } else {
      assert Polled(started, trace[i]);
      if !LooksQuiet(trace[i]) { QuietIsFound(started, trace, j, n, i + 1, NotIdle); }
      else if m.NotIdle? { QuietIsFound(started, trace, j, n, i + 1, IdleSince(trace[i].now)); }
      else { QuietIsFound(started, trace, j, n, i + 1, m); }
    }
  }

  lemma {:induction false} GuardIsMeasured(started: nat, trace: seq<Sample>, j: nat, n: nat, i: nat)
    requires QuietRun(started, trace, j, n) && j < i <= n
    ensures Quiet(started, trace, i, IdleSince(trace[j].now)) == Success
    decreases n - i
  {
    if i < n { GuardIsMeasured(started, trace, j, n, i + 1); }
  }

  // ---- Transactions ----

  /** What happens on the bus, in order. A bus clear records the polls that led to it. */
  datatype Event = Lock | Unlock | Transfer(rc: Status) | BusClear(started: nat, polls: seq<Sample>) | PeripheralReset

  /** A reading of the event log: whether the mutex is held, whether everything so far was done
      in order, and counts. */
  datatype Summary = Summary(held: bool, orderly: bool, transfers: nat, successes: nat, clears: nat)

  /** Transfers, clears and resets happen under the mutex, which is neither taken twice nor
      given up unheld; a bus is cleared only when its SDA was classified as stuck. */
  function Observe(s: Summary, e: Event): Summary {
    match e
    case Lock => s.(held := true, orderly := s.orderly && !s.held)
    case Unlock => s.(held := false, orderly := s.orderly && s.held)
    case Transfer(rc) =>
      s.(transfers := s.transfers + 1, successes := s.successes + (if rc == Success then 1 else 0),
         orderly := s.orderly && s.held)
    case BusClear(started, polls) =>
      s.(clears := s.clears + 1, orderly := s.orderly && s.held && Classify(started, polls, 0) == SdaStuck)
    case PeripheralReset => s.(orderly := s.orderly && s.held)
  }

  function Summarize(log: seq<Event>): Summary {
    if log == [] then Summary(false, true, 0, 0, 0) else Observe(Summarize(log[..|log| - 1]), log[|log| - 1])
  }

  predicate Retryable(rc: Status) { rc == EBusy || rc == EAgain || rc == ETimedOut || rc == EIo }

  /** What one try finds: when it starts, its polls, and the result of the transfer. */
  datatype Try = Try(started: nat, polls: seq<Sample>, rc: Status)

  /** What recovery finds: its polls and the result of clocking the bus. */
  datatype Recovery = Recovery(started: nat, polls: seq<Sample>, clearRc: Status)

  function QuietFor(t: Try): Status { Quiet(t.started, t.polls, 0, NotIdle) }

  /** The result of one try: of the transfer if the bus was quiet, else of the wait. */
  function TryResult(t: Try): Status { if QuietFor(t) == Success then t.rc else QuietFor(t) }

  /** The result of tries `a` onward, as long as errors may be retried. */
  function AfterTries(tries: seq<Try>, attempts: nat, a: nat, ret: Status): Status
    requires attempts <= |tries|
    decreases attempts - a
  {
    if a < attempts && Retryable(ret) then AfterTries(tries, attempts, a + 1, TryResult(tries[a])) else ret
  }

  function RecoverResult(hasDevice: bool, r: Recovery): Status {
    if !hasDevice then ENoDev
    else match Classify(r.started, r.polls, 0)
      case Idle => Success
      case SdaStuck => r.clearRc
      case _ => EBusy
  }

  /** The result of a transaction: of the tries, or of one more after a recovery that worked. */
  function TransactResult(hasDevice: bool, tries: seq<Try>, attempts: nat, r: Recovery): Status
    requires |tries| == attempts + 1
  {
    var ret := AfterTries(tries, attempts, 0, EBusy);
    if Retryable(ret) && RecoverResult(hasDevice, r) == Success then TryResult(tries[attempts]) else ret
  }

  /** The first try that ends in success or an error that is not transient decides. */
  lemma {:induction false} FirstFinalDecides(tries: seq<Try>, attempts: nat, a: nat, k: nat, ret: Status)
    requires a <= k < attempts <= |tries| && ret in {EBusy, EAgain, ETimedOut, EIo}
    requires forall i :: a <= i < k ==> TryResult(tries[i]) in {EBusy, EAgain, ETimedOut, EIo}
    requires TryResult(tries[k]) !in {EBusy, EAgain, ETimedOut, EIo}
    ensures AfterTries(tries, attempts, a, ret) == TryResult(tries[k])
    decreases k - a
  {
    if a < k { FirstFinalDecides(tries, attempts, a + 1, k, TryResult(tries[a])); }
  }

  /** Tries that all end in a transient error are all made, and the last one's error stands. */
  lemma {:induction false} AllTransient(tries: seq<Try>, attempts: nat, a: nat, ret: Status)
    requires a < attempts <= |tries| && ret in {EBusy, EAgain, ETimedOut, EIo}
    requires forall i :: a <= i < attempts ==> TryResult(tries[i]) in {EBusy, EAgain, ETimedOut, EIo}
    ensures AfterTries(tries, attempts, a, ret) == TryResult(tries[attempts - 1])
    decreases attempts - a
  {
    if a + 1 < attempts { AllTransient(tries, attempts, a + 1, TryResult(tries[a])); }
  }

  /** A transaction, from what its tries come to. Tries before `k` end in a transient error: busy,
      again, timed out or I/O. If try `k` does not, it decides; if none is left, the one try after
      a recovery that worked does, or else the last error stands. */
  lemma TransactDecides(hasDevice: bool, tries: seq<Try>, attempts: nat, r: Recovery, k: nat)
    requires 0 < attempts && |tries| == attempts + 1 && k <= attempts
    requires forall i :: 0 <= i < k ==> TryResult(tries[i]) in {EBusy, EAgain, ETimedOut, EIo}
    requires k < attempts ==> TryResult(tries[k]) !in {EBusy, EAgain, ETimedOut, EIo}
    ensures TransactResult(hasDevice, tries, attempts, r) ==
      if k < attempts || RecoverResult(hasDevice, r) == Success then TryResult(tries[k])
      else TryResult(tries[attempts - 1])
  {
    if k < attempts {
      FirstFinalDecides(tries, attempts, 0, k, EBusy);
    } else {
      AllTransient(tries, attempts, 0, EBusy);
    }
  }

  class Bus {
    const hasDevice: bool
    var log: seq<Event>

    method Emit(e: Event)
      modifies this
      ensures log == old(log) + [e] && Summarize(log) == Observe(Summarize(old(log)), e)
    {
      log := log + [e];
      assert log[..|log| - 1] == old(log);
    }

    /** On success the caller holds the mutex. */
    method LockQuiet(t: Try) returns (ret: Status)
      requires Monotone(t.polls) && !Summarize(log).held
      modifies this
      ensures old(log) <= log
      ensures Summarize(log) == Summarize(old(log)).(held := ret == Success)
      ensures ret == QuietFor(t)
    {
      Emit(Lock);
      ghost var j, n;
      ret, j, n := WaitQuiet(t.started, t.polls);
      if ret != Success { Emit(Unlock); }
    }

    method TryOnce(t: Try) returns (ret: Status)
      requires Monotone(t.polls) && !Summarize(log).held
      modifies this
      ensures old(log) <= log
      ensures var s, was := Summarize(log), Summarize(old(log));
        && !s.held && s.orderly == was.orderly && s.clears == was.clears
        && s.transfers == was.transfers + (if QuietFor(t) == Success then 1 else 0)
        && s.successes == was.successes + (if ret == Success then 1 else 0)
      ensures ret == TryResult(t)
    {
      ret := LockQuiet(t);
      if ret == Success {
        ret := t.rc;
        Emit(Transfer(ret));
        Emit(Unlock);
      }
    }

    /** i2c1_bus_recover. */
    method Recover(r: Recovery) returns (ret: Status)
      requires !Summarize(log).held
      modifies this
      ensures old(log) <= log
      ensures var s, was := Summarize(log), Summarize(old(log));
        && !s.held && s.orderly == was.orderly
        && s.transfers == was.transfers && s.successes == was.successes
        && s.clears == was.clears + (if hasDevice && Classify(r.started, r.polls, 0) == SdaStuck then 1 else 0)
      ensures ret == RecoverResult(hasDevice, r)
      ensures ret == Success <==>
        && hasDevice
        && (|| Classify(r.started, r.polls, 0) == Idle
            || (Classify(r.started, r.polls, 0) == SdaStuck && r.clearRc == Success))
    {
      ret := ENoDev;
      if hasDevice {
        Emit(Lock);
        var state := ClassifyLines(r.started, r.polls);
        if state == Idle {
          Emit(PeripheralReset);
          ret := Success;
        } else if state == SdaStuck {
          Emit(BusClear(r.started, r.polls));
          ret := r.clearRc;
          Emit(PeripheralReset);
        } else if state == SclStuck {
          Emit(PeripheralReset);
          ret := EBusy;
        } else {
          ret := EBusy;
        }
        Emit(Unlock);
      }
    }

    /** i2c1_transact: at most `attempts` tries, then at most one recovery and one more try. A
        transfer succeeds at most once, and exactly when the call reports success. */
    method Transact(callable: bool, attempts: nat, tries: seq<Try>, r: Recovery) returns (ret: Status)
      requires |tries| == attempts + 1 && (forall k :: 0 <= k < |tries| ==> Monotone(tries[k].polls))
      requires !Summarize(log).held
      modifies this
      ensures old(log) <= log
      ensures var s, was := Summarize(log), Summarize(old(log));
        && !s.held && s.orderly == was.orderly
        && s.transfers <= was.transfers + attempts + 1
        && s.successes == was.successes + (if ret == Success then 1 else 0)
        && s.clears <= was.clears + (if Classify(r.started, r.polls, 0) == SdaStuck then 1 else 0)
      ensures !callable || attempts == 0 ==> ret == EInval && log == old(log)
      ensures callable && attempts > 0 ==> ret == TransactResult(hasDevice, tries, attempts, r)
    {
      ret := EBusy;
      if !callable || attempts == 0 {
        ret := EInval;
      } else {
        var a := 0;
        ghost var was := Summarize(log);
        while a < attempts && Retryable(ret)
          invariant 0 <= a <= attempts && old(log) <= log
          invariant AfterTries(tries, attempts, 0, EBusy) == AfterTries(tries, attempts, a, ret)
          invariant var s := Summarize(log);
            && !s.held && s.orderly == was.orderly && s.clears == was.clears
            && s.transfers <= was.transfers + a
            && s.successes == was.successes + (if ret == Success then 1 else 0)
        {
          ret := TryOnce(tries[a]);
          a := a + 1;
        }
        if Retryable(ret) {
          var recovered := Recover(r);
          if recovered == Success { ret := TryOnce(tries[attempts]); }
        }
      }
    }
  }
}
