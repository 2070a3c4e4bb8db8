/** The power-on self-test that decides whether a freshly swapped image is confirmed. It ticks
    through five waiting states until it confirms the image or reboots. Source:
    firmware_confirm.c. */
module PostGate {
  import opened Common

  const CHECKS: nat := 5
  const POLL_INTERVAL_MS: int := 50
  const REQUIRED_PPO2_TX_COUNT: nat := 3

  /** Overall deadline and the budget of each waiting state, in milliseconds. */
  datatype Config = Config(deadline: int, budgets: seq<int>) {
    predicate Valid() { |budgets| == CHECKS }
  }

  /** What one tick sees: the clock when the overall deadline and the state budget are looked at
      and when the next state is entered, the subsystem snapshots, and whether a confirm would
      be written. */
  datatype Tick = Tick(
    now: int, budgetNow: int, entryNow: int,
    cellsAlive: bool, consensusAlive: bool, txCount: nat, rxTotal: nat, solenoidAlive: bool, writeOk: bool)

  /** Waiting(k): cells, consensus, PPO2 transmissions, handset, solenoid. */
  datatype Phase = Waiting(k: nat) | Confirmed | FailedTimeout | FailedCheck(k: nat)

  datatype Effect = ConfirmWrite(ok: bool) | Reboot

  datatype Machine = Machine(
    phase: Phase, mask: bv8, start: int, stateStart: int, txBaseline: nat, rxBaseline: nat, effects: seq<Effect>)

  function Initial(start: int, entry: int, tx: nat, rx: nat): Machine {
    Machine(Waiting(0), 0, start, entry, tx, rx, [])
  }

  /** Whether check `k` holds at a tick. Transmissions are counted modulo 2^32. */
  predicate Passes(k: nat, m: Machine, t: Tick) {
    match k
    case 0 => t.cellsAlive
    case 1 => t.consensusAlive
    case 2 => (t.txCount - m.txBaseline) % U32 >= REQUIRED_PPO2_TX_COUNT
    case 3 => t.rxTotal > m.rxBaseline
    case _ => t.solenoidAlive
  }

  function Bit(k: nat): bv8 {
    match k case 0 => 1 case 1 => 2 case 2 => 4 case 3 => 8 case _ => 16
  }

  /** The first `k` pass bits. */
  function FirstBits(k: nat): bv8 {
    match k case 0 => 0 case 1 => 1 case 2 => 3 case 3 => 7 case 4 => 15 case _ => 31
  }

  predicate Running(m: Machine) { m.phase.Waiting? && m.phase.k < CHECKS }

  /** One tick. */
  function Next(c: Config, m: Machine, t: Tick): Machine
    requires c.Valid()
  {
    if !Running(m) then m
    else
      var k := m.phase.k;
      if Passes(k, m, t) then
        var marked := m.(mask := m.mask | Bit(k));
        if k + 1 < CHECKS then marked.(phase := Waiting(k + 1), stateStart := t.entryNow)
        else marked.(phase := Confirmed, effects := m.effects + [ConfirmWrite(t.writeOk)])
      else if t.now - m.start >= c.deadline then m.(phase := FailedTimeout, effects := m.effects + [Reboot])
      else if t.budgetNow - m.stateStart >= c.budgets[k] then
        m.(phase := FailedCheck(k), effects := m.effects + [Reboot])
      else m
  }

  function After(c: Config, m: Machine, ts: seq<Tick>): Machine
    requires c.Valid()
  {
    if ts == [] then m else Next(c, After(c, m, ts[..|ts| - 1]), ts[|ts| - 1])
  }

  // ---- The code ----

  class Gate {
    const config: Config
    var m: Machine

    constructor (c: Config, start: int, entry: int, tx: nat, rx: nat)
      ensures config == c && m == Initial(start, entry, tx, rx)
    {
      config := c;
      m := Machine(Waiting(0), 0, start, entry, tx, rx, []);
    }

    /** mark_check_passed and the entry of the next state. */
    method MarkPassed(bit: nat, t: Tick)
      requires Running(m) && bit == m.phase.k
      modifies this
      ensures m == (if bit + 1 < CHECKS
        then old(m).(mask := old(m).mask | Bit(bit), phase := Waiting(bit + 1), stateStart := t.entryNow)
        else old(m).(mask := old(m).mask | Bit(bit), phase := Confirmed,
                     effects := old(m).effects + [ConfirmWrite(t.writeOk)]))
    {
      m := m.(mask := m.mask | Bit(bit));
      if bit + 1 < CHECKS {
        m := m.(phase := Waiting(bit + 1), stateStart := t.entryNow);
      } else {
        m := m.(phase := Confirmed, effects := m.effects + [ConfirmWrite(t.writeOk)]);
      }
    }

    method AbortAndReboot(failed: Phase)
      modifies this
      ensures m == old(m).(phase := failed, effects := old(m).effects + [Reboot])
    {
      m := m.(phase := failed, effects := m.effects + [Reboot]);
    }

    /** The run action of the current waiting state. */
    method RunState(t: Tick)
      requires config.Valid() && Running(m)
      modifies this
      ensures m == Next(config, old(m), t)
    {
      var k := m.phase.k;
      if Passes(k, m, t) {
        MarkPassed(k, t);
      } else if config.deadline - (t.now - m.start) <= 0 {
        AbortAndReboot(FailedTimeout);
      } else if t.budgetNow - m.stateStart >= config.budgets[k] {
        AbortAndReboot(FailedCheck(k));
      }
    }

    /** run_post_sequence over the ticks that come; it stops at the first terminal state. */
    method RunPostSequence(ts: seq<Tick>) returns (used: nat)
      requires config.Valid() && Running(m)
      modifies this
      ensures used <= |ts| && m == After(config, old(m), ts[..used])
      ensures used < |ts| ==> !Running(m)
      ensures forall n :: 0 <= n < used ==> Running(After(config, old(m), ts[..n]))
    {
      used := 0;
      assert ts[..0] == [];
      while Running(m) && used < |ts|
        invariant used <= |ts| && m == After(config, old(m), ts[..used])
        invariant forall n :: 0 <= n < used ==> Running(After(config, old(m), ts[..n]))
        decreases |ts| - used
      {
        assert ts[..used + 1][..used] == ts[..used];
        RunState(ts[used]);
        used := used + 1;
      }
    }
  }

  datatype Action = Silent | Defer | Run
  datatype Swap = SwapNone | SwapTest | SwapPerm | SwapRevert

  /** firmware_confirm_decide. */
  function Decide(confirmed: bool, swap: Swap): Action {
    if confirmed then Silent else if swap == SwapTest then Defer else Run
  }

  /** What a boot leaves behind: the published state, and whether the image is confirmed in flash. */
  datatype Boot = Boot(state: Phase, image: bool)

  /** A whole boot. A silent or deferred self-test publishes the confirmed state without writing;
      otherwise the self-test runs from `m` over the ticks that come. */
  function BootRun(c: Config, confirmed: bool, swap: Swap, m: Machine, ts: seq<Tick>): Boot
    requires c.Valid()
  {
    if Decide(confirmed, swap) != Run then Boot(Confirmed, confirmed)
    else Boot(After(c, m, ts).phase, confirmed || ConfirmWrite(true) in After(c, m, ts).effects)
  }

  /** The image flag in flash and the state that other modules read. */
  class Firmware {
    var image: bool
    var state: Phase

    /** firmware_confirm_init, and the self-test thread it may start. */
    method Init(c: Config, swap: Swap, start: int, entry: int, tx: nat, rx: nat, ts: seq<Tick>)
      requires c.Valid()
      modifies this
      ensures Boot(state, image) == BootRun(c, old(image), swap, Initial(start, entry, tx, rx), ts)
      ensures old(image) || swap == SwapTest ==> state == Confirmed && image == old(image)
      ensures !old(image) && swap != SwapTest ==> state == After(c, Initial(start, entry, tx, rx), ts).phase
    {
      match Decide(image, swap) {
        case Silent => state := Confirmed;
        case Defer => state := Confirmed;
        case Run =>
          var gate := new Gate(c, start, entry, tx, rx);
          var used := gate.RunPostSequence(ts);
          AfterEnds(c, Initial(start, entry, tx, rx), ts, used);
          state := gate.m.phase;
          if ConfirmWrite(true) in gate.m.effects { image := true; }
      }
    }
  }

  /** Once a run has ended, further ticks change nothing. */
  lemma {:induction false} AfterEnds(c: Config, m: Machine, ts: seq<Tick>, n: nat)
    requires c.Valid() && n <= |ts| && (n < |ts| ==> !Running(After(c, m, ts[..n])))
    ensures After(c, m, ts) == After(c, m, ts[..n])
    decreases |ts|
  {
    if n < |ts| {
      assert ts[..|ts| - 1][..n] == ts[..n];
      AfterEnds(c, m, ts[..|ts| - 1], n);
    } else {
      assert ts[..n] == ts;
    }
  }

  // ---- Whole runs ----

  /** The start data of a run never changes. */
  predicate SameRun(a: Machine, b: Machine) {
    a.start == b.start && a.txBaseline == b.txBaseline && a.rxBaseline == b.rxBaseline
  }

  /** What every reachable machine looks like. */
  ghost predicate Inv(m: Machine) {
    match m.phase
    case Waiting(k) => k < CHECKS && m.mask == FirstBits(k) && m.effects == []
    case Confirmed =>
      m.mask == FirstBits(CHECKS) && (m.effects == [ConfirmWrite(true)] || m.effects == [ConfirmWrite(false)])
    case FailedTimeout => (exists k: nat :: k < CHECKS && m.mask == FirstBits(k)) && m.effects == [Reboot]
    case FailedCheck(k) => k < CHECKS && m.mask == FirstBits(k) && m.effects == [Reboot]
  }

  lemma NextBits(k: nat)
    requires k < CHECKS
    ensures FirstBits(k) | Bit(k) == FirstBits(k + 1)
  {
    match k case 0 => case 1 => case 2 => case 3 => case _ =>
  }

  /** In the k-th waiting state the mask is exactly the first k bits; a run that confirms never
      reboots, and one that reboots never confirms. */
  lemma {:induction false} RunInv(c: Config, m: Machine, ts: seq<Tick>)
    requires c.Valid() && m == Initial(m.start, m.stateStart, m.txBaseline, m.rxBaseline)
    ensures Inv(After(c, m, ts)) && SameRun(After(c, m, ts), m)
  {
    if ts != [] {
      RunInv(c, m, ts[..|ts| - 1]);
      var before := After(c, m, ts[..|ts| - 1]);
      if before.phase.Waiting? { NextBits(before.phase.k); }
    }
  }

  /** The ticks, one per check, at which the checks seen so far held. */
  ghost predicate Evidence(m: Machine, ts: seq<Tick>, at: seq<nat>) {
    && (forall k :: 0 <= k < |at| ==> at[k] < |ts| && Passes(k, m, ts[at[k]]))
    && (forall k :: 0 < k < |at| ==> at[k - 1] < at[k])
  }

  function Passed(m: Machine): nat {
    match m.phase case Waiting(k) => k case Confirmed => CHECKS case _ => 0
  }

  lemma OneTick(c: Config, m: Machine, t: Tick)
    requires c.Valid() && Inv(m)
    ensures var n := Passed(Next(c, m, t));
      n == 0 || n == Passed(m) || (n == Passed(m) + 1 && Passes(Passed(m), m, t))
  {}

  lemma MoreEvidence(m: Machine, ts: seq<Tick>, n: nat, at: seq<nat>)
    requires n < |ts| && Evidence(m, ts[..n], at)
    ensures Evidence(m, ts, at)
    ensures Passes(|at|, m, ts[n]) ==> Evidence(m, ts, at + [n])
  {
    assert forall k :: 0 <= k < |at| ==> ts[..n][at[k]] == ts[at[k]];
  }

  lemma SameChecks(k: nat, a: Machine, b: Machine, t: Tick)
    requires SameRun(a, b)
    ensures Passes(k, a, t) == Passes(k, b, t)
  {}

  /** Every check passed so far was seen to hold, in order, at strictly increasing ticks. */
  lemma {:induction false} ChecksWereSeen(c: Config, m: Machine, ts: seq<Tick>) returns (at: seq<nat>)
    requires c.Valid() && m == Initial(m.start, m.stateStart, m.txBaseline, m.rxBaseline)
    ensures |at| == Passed(After(c, m, ts)) && Evidence(m, ts, at)
  {
    if ts == [] {
      at := [];
    } else {
      var n := |ts| - 1;
      var before := After(c, m, ts[..n]);
      RunInv(c, m, ts[..n]);
      at := ChecksWereSeen(c, m, ts[..n]);
      OneTick(c, before, ts[n]);
      SameChecks(|at|, m, before, ts[n]);
      MoreEvidence(m, ts, n, at);
      var passed := Passed(Next(c, before, ts[n]));
      at := if passed == 0 then [] else if passed == |at| then at else at + [n];
    }
  }

  /** The image is confirmed only after, at strictly increasing ticks, the cells and the consensus
      were alive, three PPO2 messages had gone out, the handset had been heard and the solenoid
      was alive. */
  lemma ConfirmedAfterAllChecks(c: Config, m: Machine, ts: seq<Tick>) returns (at: seq<nat>)
    requires c.Valid() && m == Initial(m.start, m.stateStart, m.txBaseline, m.rxBaseline)
    requires After(c, m, ts).phase == Confirmed
    ensures |at| == 5 && at[0] < at[1] < at[2] < at[3] < at[4] < |ts|
    ensures ts[at[0]].cellsAlive && ts[at[1]].consensusAlive
    ensures (ts[at[2]].txCount - m.txBaseline) % 0x1_0000_0000 >= 3
    ensures ts[at[3]].rxTotal > m.rxBaseline && ts[at[4]].solenoidAlive
  {
    at := ChecksWereSeen(c, m, ts);
    assert Passes(0, m, ts[at[0]]) && Passes(1, m, ts[at[1]]) && Passes(2, m, ts[at[2]]);
    assert Passes(3, m, ts[at[3]]) && Passes(4, m, ts[at[4]]);
  }

  // ---- Termination ----

  /** Ticks at least one poll interval apart, none before the start. */
  ghost predicate Paced(m: Machine, ts: seq<Tick>) {
    forall i :: 0 <= i < |ts| ==> ts[i].now >= m.start + POLL_INTERVAL_MS * i
  }

  function CeilDiv(a: int, b: int): int
    requires b > 0
  {
    (a + b - 1) / b
  }

  /** Past the deadline every tick moves on or ends the run. */
  lemma {:induction false} LateTicksMoveOn(c: Config, m: Machine, ts: seq<Tick>, late: nat)
    requires c.Valid() && m == Initial(m.start, m.stateStart, m.txBaseline, m.rxBaseline)
    requires Paced(m, ts) && POLL_INTERVAL_MS * late >= c.deadline && late <= |ts|
    ensures Running(After(c, m, ts)) ==> After(c, m, ts).phase.k >= |ts| - late
    decreases |ts|
  {
    if |ts| > late {
      var n := |ts| - 1;
      LateTicksMoveOn(c, m, ts[..n], late);
      RunInv(c, m, ts[..n]);
      LaterTick(n, late);
    }
  }

  lemma LaterTick(n: int, late: int)
    requires late <= n
    ensures POLL_INTERVAL_MS * late <= POLL_INTERVAL_MS * n
  {}

  /** Every run ends within ceil(deadline / 50) + 5 ticks. */
  lemma RunEnds(c: Config, m: Machine, ts: seq<Tick>)
    requires c.Valid() && m == Initial(m.start, m.stateStart, m.txBaseline, m.rxBaseline) && Paced(m, ts)
    requires c.deadline >= 0 && |ts| >= CeilDiv(c.deadline, POLL_INTERVAL_MS) + CHECKS
    ensures !Running(After(c, m, ts))
  {
    LateTicksMoveOn(c, m, ts, CeilDiv(c.deadline, POLL_INTERVAL_MS));
  }

  /** A healthy head is confirmed by the fifth tick, however late its ticks come: the check is
      looked at before any deadline. */
  lemma {:induction false} HealthyIsConfirmed(c: Config, m: Machine, ts: seq<Tick>)
    requires c.Valid() && m == Initial(m.start, m.stateStart, m.txBaseline, m.rxBaseline) && |ts| <= CHECKS
    requires |ts| > 0 ==> ts[0].cellsAlive
    requires |ts| > 1 ==> ts[1].consensusAlive
    requires |ts| > 2 ==> (ts[2].txCount - m.txBaseline) % 0x1_0000_0000 >= 3
    requires |ts| > 3 ==> ts[3].rxTotal > m.rxBaseline
    requires |ts| > 4 ==> ts[4].solenoidAlive
    ensures After(c, m, ts).phase == if |ts| < CHECKS then Waiting(|ts|) else Confirmed
  {
    if ts != [] {
      HealthyIsConfirmed(c, m, ts[..|ts| - 1]);
      RunInv(c, m, ts[..|ts| - 1]);
    }
  }

  // ---- What the confirmed state says about the image ----

  /** How many ticks a run uses: up to the one that ends it. */
  function Used(c: Config, m: Machine, ts: seq<Tick>): (n: nat)
    requires c.Valid()
    ensures n <= |ts|
  {
    if ts == [] then 0
    else if Running(After(c, m, ts[..|ts| - 1])) then |ts|
    else Used(c, m, ts[..|ts| - 1])
  }

  /** A run that ends confirmed has made one write, at its last tick. */
  lemma {:induction false} WriteAtLastTick(c: Config, m: Machine, ts: seq<Tick>)
    requires c.Valid() && m == Initial(m.start, m.stateStart, m.txBaseline, m.rxBaseline)
    ensures After(c, m, ts).phase == Confirmed ==>
      Used(c, m, ts) > 0 && After(c, m, ts).effects == [ConfirmWrite(ts[Used(c, m, ts) - 1].writeOk)]
  {
    if ts != [] {
      var front := ts[..|ts| - 1];
      RunInv(c, m, front);
      WriteAtLastTick(c, m, front);
      if Running(After(c, m, front)) {
        assert After(c, m, front).effects == [];
      }
    }
  }

  /** The check a machine waits for, or failed at: the first whose bit is missing. */
  ghost predicate At(m: Machine, k: nat) { k < CHECKS && m.mask == FirstBits(k) }

  lemma FirstBitsDiffer(j: nat, k: nat)
    requires j < CHECKS && k < CHECKS && FirstBits(j) == FirstBits(k)
    ensures j == k
  {}

  lemma {:induction false} RebootStands(c: Config, m: Machine, ts: seq<Tick>, k: nat)
    requires c.Valid() && m == Initial(m.start, m.stateStart, m.txBaseline, m.rxBaseline)
    requires Reboot in After(c, m, ts).effects && At(After(c, m, ts), k)
    ensures Used(c, m, ts) > 0
    ensures var t := ts[Used(c, m, ts) - 1];
      && !Passes(k, m, t)
      && (After(c, m, ts).phase == FailedTimeout <==> t.now - m.start >= c.deadline)
      && (After(c, m, ts).phase == FailedCheck(k) <==> t.now - m.start < c.deadline)
      && (t.now - m.start < c.deadline ==> t.budgetNow - After(c, m, ts).stateStart >= c.budgets[k])
  {
    var front := ts[..|ts| - 1];
    RunInv(c, m, front);
    RunInv(c, m, ts);
    var before := After(c, m, front);
    if Running(before) {
      SameChecks(before.phase.k, m, before, ts[|ts| - 1]);
      RebootStep(c, before, ts[|ts| - 1]);
      FirstBitsDiffer(before.phase.k, k);
    } else {
      RebootStands(c, m, front, k);
    }
  }

  /** A run reboots only with cause: at its last tick the check it stood at did not hold, and either
      the overall deadline was over, or it was not and the budget of that check was, counted from
      when its state was entered. */
  lemma RebootHasCause(c: Config, m: Machine, ts: seq<Tick>, k: nat)
    requires c.Valid() && m == Initial(m.start, m.stateStart, m.txBaseline, m.rxBaseline)
    requires Reboot in After(c, m, ts).effects && At(After(c, m, ts), k)
    ensures Used(c, m, ts) > 0
    ensures var t := ts[Used(c, m, ts) - 1];
      && (match k
          case 0 => !t.cellsAlive
          case 1 => !t.consensusAlive
          case 2 => (t.txCount - m.txBaseline) % 0x1_0000_0000 < 3
          case 3 => t.rxTotal <= m.rxBaseline
          case _ => !t.solenoidAlive)
      && (After(c, m, ts).phase == FailedTimeout <==> t.now - m.start >= c.deadline)
      && (After(c, m, ts).phase == FailedCheck(k) <==> t.now - m.start < c.deadline)
      && (t.now - m.start < c.deadline ==> t.budgetNow - After(c, m, ts).stateStart >= c.budgets[k])
  {
    RebootStands(c, m, ts, k);
  }

  lemma RebootStep(c: Config, m: Machine, t: Tick)
    requires c.Valid() && Inv(m) && Running(m) && Reboot in Next(c, m, t).effects
    ensures Next(c, m, t).mask == m.mask && Next(c, m, t).stateStart == m.stateStart && !Passes(m.phase.k, m, t)
    ensures Next(c, m, t).phase == FailedTimeout <==> t.now - m.start >= c.deadline
    ensures Next(c, m, t).phase == FailedCheck(m.phase.k) <==> t.now - m.start < c.deadline
    ensures t.now - m.start < c.deadline ==> t.budgetNow - m.stateStart >= c.budgets[m.phase.k]
  {}

  /** On every boot that ends in the confirmed state, the image is confirmed exactly when it was
      confirmed at boot, or the self-test ran and the write at its last tick succeeded. */
  lemma ConfirmedStateIsTrueIff(c: Config, confirmed: bool, swap: Swap, m: Machine, ts: seq<Tick>)
    requires c.Valid() && m == Initial(m.start, m.stateStart, m.txBaseline, m.rxBaseline)
    requires BootRun(c, confirmed, swap, m, ts).state == Confirmed
    ensures BootRun(c, confirmed, swap, m, ts).image <==>
      confirmed || (swap != SwapTest && Used(c, m, ts) > 0 && ts[Used(c, m, ts) - 1].writeOk)
  {
    WriteAtLastTick(c, m, ts);
  }

  /** On an image that is not confirmed the state cannot be trusted: with a test swap queued it
      is published at once, and otherwise some run ends in it without a confirmation in flash. It
      can be trusted on every boot exactly when the image was confirmed to begin with. */
  lemma ConfirmedStateIsTrustedIff(c: Config, confirmed: bool, swap: Swap, m: Machine)
    requires c.Valid() && m == Initial(m.start, m.stateStart, m.txBaseline, m.rxBaseline)
    ensures (forall ts: seq<Tick> :: BootRun(c, confirmed, swap, m, ts).state == Confirmed ==>
        BootRun(c, confirmed, swap, m, ts).image)
      <==> confirmed
  {
    if !confirmed {
      var t := Tick(m.start, m.start, m.start, true, true,
        m.txBaseline + REQUIRED_PPO2_TX_COUNT, m.rxBaseline + 1, true, false);
      var ts := [t, t, t, t, t];
      HealthyIsConfirmed(c, m, ts);
      WriteAtLastTick(c, m, ts);
      assert After(c, m, ts).effects == [ConfirmWrite(false)];
      assert BootRun(c, confirmed, swap, m, ts) == Boot(Confirmed, false);
    }
  }
}
