/** Calibrating the oxygen cells as a transaction over a store that may fail or lie. Floats are
    modelled as reals. Source: calibration.c, calibration_store.c, oxygen_cell_math.c. */
module Calibration {
  import opened Common

  const CELL_MAX: nat := 3
  const CAL_FO2_MAX: nat := 100
  const MAX_VALID_PPO2: nat := 254
  const ERR_MATH := -1.0
  const ERR_RANGE := -2.0
  const TOLERANCE := 0.00001
  const MIN_DIVISOR := 0.000001

  datatype CalResult = Ok | Rejected | Failed | OutOfRange

  datatype CellType = Analog | DiveO2 | O2S

  datatype Method = DigitalReference | AnalogAbsolute | TotalAbsolute | SolenoidFlush | Check | Unknown

  /** What a cell's channel holds: hundredths of a millivolt and the PPO2 in bar. */
  datatype Reading = Reading(millivolts: nat, precision: real)

  /** The digital reference: wire PPO2, health and ambient pressure in microbar. */
  datatype Reference = Reference(healthy: bool, ppo2: nat, pressureUbar: int)

  datatype Request = Request(kind: Method, fo2: nat, pressure: nat)

  datatype Response = Response(result: CalResult, cellMv: seq<nat>)

  // ---- Coefficients ----

  /** Toward zero, as a C cast. */
  function Truncate(x: real): int { if x >= 0.0 then x.Floor else -((-x).Floor) }

  function ToI16(n: int): int {
    var m := n % 0x1_0000;
    if m >= 0x8000 then m - 0x1_0000 else m
  }

  function Magnitude(n: int): nat { if n < 0 then -n else n }

  /** Hundredths of a millivolt per ADC count: 25600 / 32767. */
  function CountsToMillis(counts: int): real { Magnitude(counts) as real * 25600.0 / 32767.0 }

  function InRange(coeff: real, low: real, high: real): real {
    if coeff < low || coeff > high then ERR_RANGE else coeff
  }

  function AnalogCoefficient(counts: int, target: nat): real {
    var divisor := CountsToMillis(counts);
    if divisor < MIN_DIVISOR then ERR_MATH else InRange(target as real / divisor, 0.01428, 0.02625)
  }

  function DiveO2Coefficient(raw: int, target: nat): real {
    if target == 0 then ERR_MATH
    else if Magnitude(raw) as real < 1.0 then ERR_MATH
    else InRange(Magnitude(raw) as real / (target as real / 100.0), 800000.0, 1100000.0)
  }

  function O2SCoefficient(sample: real, target: nat): real {
    if Abs(sample) < MIN_DIVISOR then ERR_MATH
    else InRange(target as real / 100.0 / sample, 0.8, 1.2)
  }

  /** The ADC counts behind the millivolts on a channel. */
  function RawCounts(millivolts: nat): int { ToI16(Round(millivolts as real / (25600.0 / 32767.0))) }

  /** Up to the ADC's full scale, no other number of counts is nearer to the millivolts. */
  lemma RawCountsAreNearest(millivolts: nat, n: nat)
    requires millivolts <= 25600
    ensures 0 <= RawCounts(millivolts) <= 32767
    ensures Abs(CountsToMillis(RawCounts(millivolts)) - millivolts as real) <=
            Abs(CountsToMillis(n) - millivolts as real)
  {
    var x := millivolts as real / (25600.0 / 32767.0);
    assert x == millivolts as real * 32767.0 / 25600.0 && 0.0 <= x <= 32767.0;
    var k := Round(x);
    assert Abs(x - k as real) <= 0.5 && 0 <= k <= 32767 && RawCounts(millivolts) == k;
    if n < k { assert n as real <= k as real - 1.0; } else if n > k { assert n as real >= k as real + 1.0; }
    assert Abs(x - k as real) <= Abs(x - n as real);
  }

  /** The raw sample is recovered from the channel with the default coefficient. */
  function Coefficient(t: CellType, r: Reading, target: nat): real {
    match t
    case Analog => AnalogCoefficient(RawCounts(r.millivolts), target)
    case DiveO2 => DiveO2Coefficient(Truncate(r.precision * 1000000.0), target)
    case O2S => O2SCoefficient(r.precision / 1.0, target)
  }

  predicate InEnvelope(t: CellType, coeff: real) {
    match t
    case Analog => 0.01428 <= coeff <= 0.02625
    case DiveO2 => 800000.0 <= coeff <= 1100000.0
    case O2S => 0.8 <= coeff <= 1.2
  }

  lemma AcceptedIsInEnvelope(t: CellType, r: Reading, target: nat)
    ensures Coefficient(t, r, target) >= 0.0 <==> InEnvelope(t, Coefficient(t, r, target))
    ensures Coefficient(t, r, target) < 0.0 ==>
      Coefficient(t, r, target) == ERR_MATH || Coefficient(t, r, target) == ERR_RANGE
  {}

  lemma DivMul(a: real, b: real)
    requires b != 0.0
    ensures a / b * b == a
  {}

  /** An accepted analog coefficient turns the same counts back into the target. */
  lemma AnalogReadsBack(counts: int, target: nat)
    requires AnalogCoefficient(counts, target) >= 0.0
    ensures AnalogCoefficient(counts, target) * CountsToMillis(counts) == target as real
  {
    DivMul(target as real, CountsToMillis(counts));
  }

  /** An accepted DiveO2 coefficient divides the same sample back into the target in bar. */
  lemma DiveO2ReadsBack(raw: int, target: nat)
    requires DiveO2Coefficient(raw, target) >= 0.0
    ensures Magnitude(raw) as real / DiveO2Coefficient(raw, target) == target as real / 100.0
  {
    var bar, m := target as real / 100.0, Magnitude(raw) as real;
    DivMul(m, bar);
    var c := m / bar;
    assert c == DiveO2Coefficient(raw, target);
    DivMul(m, c);
    assert (m / c - bar) * c == 0.0;
  }

  lemma O2SReadsBack(sample: real, target: nat)
    requires O2SCoefficient(sample, target) >= 0.0
    ensures O2SCoefficient(sample, target) * sample == target as real / 100.0
  {
    DivMul(target as real / 100.0, sample);
  }

  /** Target PPO2 in centibar, unless it does not fit the wire. */
  function TargetPpo2(fo2: nat, pressure: nat): Option<nat> {
    var ppo2 := fo2 * pressure / 1000;
    if ppo2 > MAX_VALID_PPO2 then None else Some(ppo2)
  }

  // ---- The store ----

  /** The cache that readers see, and the flash behind it. A key may be missing from flash. */
  datatype Store = Store(cache: seq<real>, nvs: seq<Option<real>>) {
    predicate Valid() { |cache| == CELL_MAX == |nvs| }

    /** What cell `j` reads back after a reload: flash if it has the key, else the cache. */
    function Reloaded(j: nat): real
      requires Valid() && j < CELL_MAX
    {
      if nvs[j].Some? then nvs[j].value else cache[j]
    }

    /** Reloading would not change what cell `j` reads back. */
    predicate Settled(j: nat)
      requires Valid() && j < CELL_MAX
    {
      Reloaded(j) == cache[j]
    }
  }

  /** What is under a key after a save: what was asked for, something else, or nothing. */
  datatype Kept = AsAsked | Instead(value: Option<real>)

  /** What flash does with one save: whether the write is reported as done, what it keeps, whether
      the reload reports success, and which keys a failed reload still delivers. */
  datatype Flash = Flash(written: bool, kept: Kept, loaded: bool, delivered: set<nat>) {
    function Stored(coeff: real): Option<real> {
      match kept case AsAsked => Some(coeff) case Instead(v) => v
    }

    predicate Reports() { written && loaded }

    predicate Honest(coeff: real) { Reports() && Stored(coeff) == Some(coeff) }
  }

  function Delivers(e: Flash, j: nat): bool { e.written && (e.loaded || j in e.delivered) }

  /** The store after a save of cell `i`: only that key changes in flash, and the reload refreshes
      the cache from it. */
  function AfterSave(s: Store, i: nat, coeff: real, e: Flash): (t: Store)
    requires s.Valid() && i < CELL_MAX
    ensures t.Valid()
  {
    var written := s.(nvs := s.nvs[i := e.Stored(coeff)]);
    written.(cache := seq(CELL_MAX, j requires 0 <= j < CELL_MAX =>
      if Delivers(e, j) then written.Reloaded(j) else s.cache[j]))
  }

  /** Cell `j` reads back as before, and would after a reload, if that held before. */
  predicate Keeps(s: Store, t: Store, j: nat)
    requires s.Valid() && t.Valid() && j < CELL_MAX
  {
    s.Settled(j) ==> t.Settled(j) && t.cache[j] == s.cache[j]
  }

  lemma SaveKeepsOthers(s: Store, i: nat, coeff: real, e: Flash, j: nat)
    requires s.Valid() && i < CELL_MAX && j < CELL_MAX && i != j
    ensures Keeps(s, AfterSave(s, i, coeff, e), j) && AfterSave(s, i, coeff, e).nvs[j] == s.nvs[j]
  {}

  // ---- Calibrating the cells ----

  /** What a run has to do for one cell: nothing, give up with a result, or save a coefficient. */
  datatype Task = Skip | Refuse(result: CalResult) | Save(coeff: real)

  predicate Takes(t: CellType, analogOnly: bool) { analogOnly ==> t.Analog? }

  function ClassifyCoeffError(coeff: real): CalResult {
    if coeff <= -1.5 then OutOfRange else Failed
  }

  function TaskOf(t: CellType, r: Option<Reading>, target: nat, analogOnly: bool): Task {
    if !Takes(t, analogOnly) then Skip
    else if r.None? then Refuse(Failed)
    else
      var c := Coefficient(t, r.value, target);
      if c < 0.0 then Refuse(ClassifyCoeffError(c)) else Save(c)
  }

  function TasksOf(types: seq<CellType>, rs: seq<Option<Reading>>, target: nat, analogOnly: bool): (tasks: seq<Task>)
    requires |types| == |rs|
    ensures |tasks| == |types| && SensibleTasks(tasks)
  {
    seq(|types|, i requires 0 <= i < |types| => TaskOf(types[i], rs[i], target, analogOnly))
  }

  /** A refusal is a failure. */
  predicate SensibleTasks(tasks: seq<Task>) {
    forall i :: 0 <= i < |tasks| && tasks[i].Refuse? ==> tasks[i].result != Ok
  }

  /** A saved coefficient is in its type's envelope. */
  lemma SavedIsInEnvelope(t: CellType, r: Option<Reading>, target: nat, analogOnly: bool)
    requires TaskOf(t, r, target, analogOnly).Save?
    ensures r.Some? && TaskOf(t, r, target, analogOnly).coeff == Coefficient(t, r.value, target)
    ensures InEnvelope(t, Coefficient(t, r.value, target))
  {
    AcceptedIsInEnvelope(t, r.value, target);
  }

  predicate Near(x: real, coeff: real) { Abs(x - coeff) <= TOLERANCE }

  /** One cell: save, and compare what the cache then reads with what was saved. */
  function CellStep(s: Store, i: nat, task: Task, e: Flash): (r: (CalResult, Store))
    requires s.Valid() && i < CELL_MAX
    ensures r.1.Valid()
  {
    match task
    case Skip => (Ok, s)
    case Refuse(result) => (result, s)
    case Save(c) =>
      var t := AfterSave(s, i, c, e);
      (if e.Reports() && Near(t.cache[i], c) then Ok else Failed, t)
  }

  /** The first `n` cells: the loop goes on after a failure, and the last failing cell decides. */
  function Cells(s: Store, tasks: seq<Task>, es: seq<Flash>, n: nat): (r: (CalResult, Store))
    requires s.Valid() && n <= |tasks| == |es| <= CELL_MAX
    ensures r.1.Valid()
  {
    if n == 0 then (Ok, s)
    else
      var before := Cells(s, tasks, es, n - 1);
      var cell := CellStep(before.1, n - 1, tasks[n - 1], es[n - 1]);
      (if cell.0 != Ok then cell.0 else before.0, cell.1)
  }

  /** Whether a cell before `n` is saved, so that its reload has gone over the cache. */
  predicate SavesBefore(tasks: seq<Task>, n: nat)
    requires n <= |tasks|
  {
    n > 0 && (tasks[n - 1].Save? || SavesBefore(tasks, n - 1))
  }

  /** What cell `j` reads back just before cell `n`'s turn, if no save of its own has touched it. */
  function Standing(s: Store, tasks: seq<Task>, n: nat, j: nat): real
    requires s.Valid() && n <= |tasks| && j < CELL_MAX
  {
    if SavesBefore(tasks, n) then s.Reloaded(j) else s.cache[j]
  }

  /** What cell `i` reads back right after its own save. */
  function ReadBack(s: Store, tasks: seq<Task>, e: Flash, i: nat): real
    requires s.Valid() && i < |tasks| <= CELL_MAX && tasks[i].Save?
  {
    var stored := e.Stored(tasks[i].coeff);
    if stored.Some? then stored.value else Standing(s, tasks, i, i)
  }

  /** Cell `i` does not fail: nothing to save, or a save that reports success and reads back near
      the coefficient. */
  predicate Passes(s: Store, tasks: seq<Task>, e: Flash, i: nat)
    requires s.Valid() && i < |tasks| <= CELL_MAX
  {
    match tasks[i]
    case Skip => true
    case Refuse(_) => false
    case Save(c) => e.Reports() && Near(ReadBack(s, tasks, e, i), c)
  }

  /** The store after `n` cells that all passed, cell by cell. */
  ghost predicate PassedStore(s: Store, tasks: seq<Task>, es: seq<Flash>, n: nat, t: Store)
    requires s.Valid() && t.Valid() && n <= |tasks| == |es| <= CELL_MAX
  {
    forall j :: 0 <= j < CELL_MAX ==> PassedCell(s, tasks, es, n, t, j)
  }

  predicate PassedCell(s: Store, tasks: seq<Task>, es: seq<Flash>, n: nat, t: Store, j: nat)
    requires s.Valid() && t.Valid() && n <= |tasks| == |es| <= CELL_MAX && j < CELL_MAX
  {
    if j < n && tasks[j].Save? then
      t.nvs[j] == es[j].Stored(tasks[j].coeff) && t.cache[j] == ReadBack(s, tasks, es[j], j)
    else t.nvs[j] == s.nvs[j] && t.cache[j] == Standing(s, tasks, n, j)
  }

  lemma PassOne(s: Store, tasks: seq<Task>, es: seq<Flash>, n: nat, t: Store)
    requires s.Valid() && t.Valid() && n < |tasks| == |es| <= CELL_MAX
    requires SensibleTasks(tasks) && PassedStore(s, tasks, es, n, t)
    ensures CellStep(t, n, tasks[n], es[n]).0 == Ok <==> Passes(s, tasks, es[n], n)
    ensures Passes(s, tasks, es[n], n) ==> PassedStore(s, tasks, es, n + 1, CellStep(t, n, tasks[n], es[n]).1)
  {
    var m := n + 1;
    if tasks[n].Save? && es[n].Reports() {
      var u := AfterSave(t, n, tasks[n].coeff, es[n]);
      assert PassedCell(s, tasks, es, n, t, n);
      forall j | 0 <= j < CELL_MAX ensures PassedCell(s, tasks, es, m, u, j) {
        assert PassedCell(s, tasks, es, n, t, j);
      }
    } else if tasks[n].Skip? {
      forall j | 0 <= j < CELL_MAX ensures PassedCell(s, tasks, es, m, t, j) {
        assert PassedCell(s, tasks, es, n, t, j);
      }
    }
  }

  /** A run over the cells ends OK exactly when every cell passes, and then the store holds,
      cell by cell, what flash kept. */
  lemma {:induction false} CellsOkIff(s: Store, tasks: seq<Task>, es: seq<Flash>, n: nat)
    requires s.Valid() && n <= |tasks| == |es| <= CELL_MAX && SensibleTasks(tasks)
    ensures Cells(s, tasks, es, n).0 == Ok <==> forall i :: 0 <= i < n ==> Passes(s, tasks, es[i], i)
    ensures Cells(s, tasks, es, n).0 == Ok ==> PassedStore(s, tasks, es, n, Cells(s, tasks, es, n).1)
  {
    if n > 0 {
      CellsOkIff(s, tasks, es, n - 1);
      if Cells(s, tasks, es, n - 1).0 == Ok {
        PassOne(s, tasks, es, n - 1, Cells(s, tasks, es, n - 1).1);
      }
    }
  }

  /** Cells that are not saved, or not configured, are kept, whatever flash does. */
  lemma {:induction false} CellsKeepRest(s: Store, tasks: seq<Task>, es: seq<Flash>, n: nat, j: nat)
    requires s.Valid() && n <= |tasks| == |es| <= CELL_MAX && j < CELL_MAX && (j < n ==> !tasks[j].Save?)
    ensures Keeps(s, Cells(s, tasks, es, n).1, j)
  {
    if n > 0 {
      CellsKeepRest(s, tasks, es, n - 1, j);
      if tasks[n - 1].Save? { SaveKeepsOthers(Cells(s, tasks, es, n - 1).1, n - 1, tasks[n - 1].coeff, es[n - 1], j); }
    }
  }

  /** The last refusal, or OK. */
  function LastRefusal(tasks: seq<Task>, n: nat): CalResult
    requires n <= |tasks|
  {
    if n == 0 then Ok else if tasks[n - 1].Refuse? then tasks[n - 1].result else LastRefusal(tasks, n - 1)
  }

  /** On a store that does what it says, the readings alone decide. */
  lemma {:induction false} HonestCells(s: Store, tasks: seq<Task>, es: seq<Flash>, n: nat)
    requires s.Valid() && n <= |tasks| == |es| <= CELL_MAX && SensibleTasks(tasks)
    requires forall i :: 0 <= i < n && tasks[i].Save? ==> es[i].Honest(tasks[i].coeff)
    ensures Cells(s, tasks, es, n).0 == LastRefusal(tasks, n)
  {
    if n > 0 { HonestCells(s, tasks, es, n - 1); }
  }

  // ---- What an OK result says about flash ----

  /** Cell `i` reads back near the coefficient, and would after a reload. */
  predicate Cached(t: Store, i: nat, coeff: real)
    requires t.Valid() && i < CELL_MAX
  {
    t.Settled(i) && Near(t.cache[i], coeff)
  }

  /** Flash holds a value near the coefficient. */
  predicate InFlash(t: Store, i: nat, coeff: real)
    requires t.Valid() && i < CELL_MAX
  {
    t.nvs[i].Some? && Near(t.nvs[i].value, coeff)
  }

  ghost predicate AllCached(t: Store, tasks: seq<Task>)
    requires t.Valid() && |tasks| <= CELL_MAX
  {
    forall i :: 0 <= i < |tasks| && tasks[i].Save? ==> Cached(t, i, tasks[i].coeff)
  }

  ghost predicate AllInFlash(t: Store, tasks: seq<Task>)
    requires t.Valid() && |tasks| <= CELL_MAX
  {
    forall i :: 0 <= i < |tasks| && tasks[i].Save? ==> InFlash(t, i, tasks[i].coeff)
  }

  /** OK means that every saved cell reads back near its coefficient, also after a reload. */
  lemma {:induction false} OkMeansCached(s: Store, tasks: seq<Task>, es: seq<Flash>)
    requires s.Valid() && |tasks| == |es| <= CELL_MAX && SensibleTasks(tasks) && Cells(s, tasks, es, |tasks|).0 == Ok
    ensures AllCached(Cells(s, tasks, es, |tasks|).1, tasks)
  {
    CellsOkIff(s, tasks, es, |tasks|);
    var t := Cells(s, tasks, es, |tasks|).1;
    forall i | 0 <= i < |tasks| && tasks[i].Save? ensures Cached(t, i, tasks[i].coeff) {
      assert Passes(s, tasks, es[i], i) && PassedCell(s, tasks, es, |tasks|, t, i);
      PassedIsCached(s, tasks, es, t, i);
    }
  }

  lemma PassedIsCached(s: Store, tasks: seq<Task>, es: seq<Flash>, t: Store, i: nat)
    requires s.Valid() && t.Valid() && i < |tasks| == |es| <= CELL_MAX && tasks[i].Save?
    requires Passes(s, tasks, es[i], i) && PassedCell(s, tasks, es, |tasks|, t, i)
    ensures Cached(t, i, tasks[i].coeff)
    ensures !Unchanged(s, tasks, i) ==> InFlash(t, i, tasks[i].coeff)
  {}

  /** One cell: every OK outcome of its save leaves the coefficient in flash exactly when the value
      read back before was not already near it. A save that drops the key goes unnoticed then. */
  lemma OkMeansInFlashIff(s: Store, i: nat, coeff: real)
    requires s.Valid() && i < CELL_MAX
    ensures (forall e: Flash :: CellStep(s, i, Save(coeff), e).0 == Ok ==>
        InFlash(CellStep(s, i, Save(coeff), e).1, i, coeff))
      <==> !Near(s.cache[i], coeff)
  {
    if Near(s.cache[i], coeff) {
      var drop := Flash(true, Instead(None), true, {});
      assert CellStep(s, i, Save(coeff), drop).0 == Ok;
      assert !InFlash(CellStep(s, i, Save(coeff), drop).1, i, coeff);
    }
  }

  /** The cells whose coefficient would not change by more than the tolerance. */
  predicate Unchanged(s: Store, tasks: seq<Task>, i: nat)
    requires s.Valid() && i < |tasks| <= CELL_MAX
  {
    tasks[i].Save? && Near(Standing(s, tasks, i, i), tasks[i].coeff)
  }

  /** Flash that does what it says for every cell but `k`, whose key it drops. */
  function Dropping(tasks: seq<Task>, k: nat): (es: seq<Flash>)
    ensures |es| == |tasks|
  {
    seq(|tasks|, i requires 0 <= i < |tasks| =>
      Flash(true, if i == k then Instead(None) else AsAsked, true, {}))
  }

  lemma {:induction false} DroppedKeyIsOk(s: Store, tasks: seq<Task>, k: nat)
    requires s.Valid() && |tasks| <= CELL_MAX && SensibleTasks(tasks) && k < |tasks| && Unchanged(s, tasks, k)
    requires LastRefusal(tasks, |tasks|) == Ok
    ensures var r := Cells(s, tasks, Dropping(tasks, k), |tasks|); r.0 == Ok && r.1.nvs[k] == None
  {
    var es := Dropping(tasks, k);
    forall i | 0 <= i < |tasks| ensures Passes(s, tasks, es[i], i) { NoRefusal(tasks, |tasks|, i); }
    CellsOkIff(s, tasks, es, |tasks|);
    assert PassedCell(s, tasks, es, |tasks|, Cells(s, tasks, es, |tasks|).1, k);
  }

  lemma {:induction false} NoRefusal(tasks: seq<Task>, n: nat, i: nat)
    requires i < n <= |tasks| && SensibleTasks(tasks) && LastRefusal(tasks, n) == Ok
    ensures !tasks[i].Refuse?
  {
    if i < n - 1 { NoRefusal(tasks, n - 1, i); }
  }

  lemma {:induction false} OkMeansNoRefusal(s: Store, tasks: seq<Task>, es: seq<Flash>, n: nat)
    requires s.Valid() && n <= |tasks| == |es| <= CELL_MAX && SensibleTasks(tasks) && Cells(s, tasks, es, n).0 == Ok
    ensures LastRefusal(tasks, n) == Ok
  {
    if n > 0 { OkMeansNoRefusal(s, tasks, es, n - 1); }
  }

  lemma {:induction false} ChangedIsInFlash(s: Store, tasks: seq<Task>, es: seq<Flash>)
    requires s.Valid() && |tasks| == |es| <= CELL_MAX && SensibleTasks(tasks) && Cells(s, tasks, es, |tasks|).0 == Ok
    requires LastRefusal(tasks, |tasks|) != Ok || forall i :: 0 <= i < |tasks| ==> !Unchanged(s, tasks, i)
    ensures AllInFlash(Cells(s, tasks, es, |tasks|).1, tasks)
  {
    CellsOkIff(s, tasks, es, |tasks|);
    var t := Cells(s, tasks, es, |tasks|).1;
    OkMeansNoRefusal(s, tasks, es, |tasks|);
    forall i | 0 <= i < |tasks| && tasks[i].Save? ensures InFlash(t, i, tasks[i].coeff) {
      assert Passes(s, tasks, es[i], i) && !Unchanged(s, tasks, i) && PassedCell(s, tasks, es, |tasks|, t, i);
      PassedIsCached(s, tasks, es, t, i);
    }
  }

  // ---- Rolling back ----

  /** The first `n` saves of the rollback, of the coefficients in `previous`. Nothing is read back. */
  function Restored(s: Store, previous: seq<real>, es: seq<Flash>, n: nat): (t: Store)
    requires s.Valid() && n <= |es| <= CELL_MAX == |previous|
    ensures t.Valid()
  {
    if n == 0 then s else AfterSave(Restored(s, previous, es, n - 1), n - 1, previous[n - 1], es[n - 1])
  }

  lemma {:induction false} RestoredSame(s: Store, p: seq<real>, q: seq<real>, es: seq<Flash>, n: nat)
    requires s.Valid() && n <= |es| <= CELL_MAX == |p| == |q| && forall k :: 0 <= k < n ==> p[k] == q[k]
    ensures Restored(s, p, es, n) == Restored(s, q, es, n)
  {
    if n > 0 { RestoredSame(s, p, q, es, n - 1); }
  }

  /** What cell `j` reads back before rollback save `n`, if no save has touched it. */
  function StandingBack(s: Store, n: nat, j: nat): real
    requires s.Valid() && j < CELL_MAX
  {
    if n > 0 then s.Reloaded(j) else s.cache[j]
  }

  lemma {:induction false} RestoredStore(s: Store, previous: seq<real>, es: seq<Flash>, n: nat, j: nat)
    requires s.Valid() && n <= |es| <= CELL_MAX == |previous| && j < CELL_MAX
    requires forall k :: 0 <= k < n ==> es[k].Reports()
    ensures var t := Restored(s, previous, es, n);
      if j < n then
        var stored := es[j].Stored(previous[j]);
        t.nvs[j] == stored && t.cache[j] == (if stored.Some? then stored.value else StandingBack(s, j, j))
      else t.nvs[j] == s.nvs[j] && t.cache[j] == StandingBack(s, n, j)
  {
    if n > 0 {
      RestoredStore(s, previous, es, n - 1, j);
    }
  }

  lemma {:induction false} RestoreKeepsRest(s: Store, previous: seq<real>, es: seq<Flash>, n: nat, j: nat)
    requires s.Valid() && n <= |es| <= CELL_MAX == |previous| && n <= j < CELL_MAX
    ensures Keeps(s, Restored(s, previous, es, n), j)
  {
    if n > 0 {
      RestoreKeepsRest(s, previous, es, n - 1, j);
      SaveKeepsOthers(Restored(s, previous, es, n - 1), n - 1, previous[n - 1], es[n - 1], j);
    }
  }

  /** Every configured cell reads back its old coefficient, and would after a reload. */
  ghost predicate RolledBack(before: Store, t: Store, n: nat)
    requires before.Valid() && t.Valid() && n <= CELL_MAX
  {
    forall j :: 0 <= j < n ==> t.cache[j] == before.cache[j] && t.Settled(j)
  }

  /** Rollback save `k` left the old coefficient in flash, or left no key while the cache still
      read it. */
  predicate Restores(before: Store, s: Store, e: Flash, k: nat)
    requires before.Valid() && s.Valid() && k < CELL_MAX
  {
    var stored := e.Stored(before.cache[k]);
    stored == Some(before.cache[k]) || (stored == None && StandingBack(s, k, k) == before.cache[k])
  }

  /** When every rollback save reports success, the cells are rolled back exactly when each save
      restores. */
  lemma {:induction false} RolledBackIff(before: Store, s: Store, es: seq<Flash>)
    requires before.Valid() && s.Valid() && |es| <= CELL_MAX && forall k :: 0 <= k < |es| ==> es[k].Reports()
    ensures RolledBack(before, Restored(s, before.cache, es, |es|), |es|) <==>
      forall k :: 0 <= k < |es| ==> Restores(before, s, es[k], k)
  {
    var t := Restored(s, before.cache, es, |es|);
    forall k | 0 <= k < |es|
      ensures (t.cache[k] == before.cache[k] && t.Settled(k)) <==> Restores(before, s, es[k], k)
    {
      RestoredStore(s, before.cache, es, |es|, k);
    }
    if RolledBack(before, t, |es|) {
      forall k | 0 <= k < |es| ensures Restores(before, s, es[k], k) {
        assert t.cache[k] == before.cache[k] && t.Settled(k);
      }
    }
  }

  // ---- A whole run ----

  /** What a request comes to: an immediate result, or a task for every configured cell. */
  datatype Plan = Stop(result: CalResult) | Work(tasks: seq<Task>)

  /** A reference cell that was read, is healthy and reports a pressure from 1 to 65535 mbar. */
  predicate Usable(ref: Option<Reference>) {
    ref.Some? && ref.value.healthy && 1000 <= ref.value.pressureUbar < 0x1_0000 * 1000
  }

  function PlanOf(types: seq<CellType>, hasCheck: bool, req: Request, rs: seq<Option<Reading>>, ref: Option<Reference>)
    : (p: Plan)
    requires |types| == |rs|
    ensures p.Work? ==> |p.tasks| == |types| && SensibleTasks(p.tasks)
  {
    if req.fo2 > CAL_FO2_MAX then Stop(Rejected)
    else match req.kind
      case DigitalReference => if Usable(ref) then Work(TasksOf(types, rs, ref.value.ppo2, true)) else Stop(Rejected)
      case Check => Stop(if hasCheck then Ok else Rejected)
      case Unknown => Stop(Rejected)
      case _ =>
        match TargetPpo2(req.fo2, req.pressure)
        case None => Stop(Rejected)
        case Some(target) => Work(TasksOf(types, rs, target, false))
  }

  predicate Fits(p: Plan, n: nat) {
    n <= CELL_MAX && (p.Work? ==> |p.tasks| == n && SensibleTasks(p.tasks))
  }

  /** The executing state, before any rollback. */
  function Executed(s: Store, p: Plan, exec: seq<Flash>): (r: (CalResult, Store))
    requires s.Valid() && Fits(p, |exec|)
    ensures r.1.Valid()
  {
    match p
    case Stop(result) => (result, s)
    case Work(tasks) => Cells(s, tasks, exec, |tasks|)
  }

  /** A run ends with its execution, or with a rollback of every configured cell. */
  function RunOf(s: Store, p: Plan, exec: seq<Flash>, roll: seq<Flash>): (r: (CalResult, Store))
    requires s.Valid() && |exec| == |roll| && Fits(p, |exec|)
    ensures r.1.Valid()
  {
    var x := Executed(s, p, exec);
    if x.0 == Ok then x else (x.0, Restored(x.1, s.cache, roll, |roll|))
  }

  /** Execution keeps every cell that it does not save. */
  lemma ExecutedKeeps(s: Store, p: Plan, exec: seq<Flash>, j: nat)
    requires s.Valid() && Fits(p, |exec|) && j < CELL_MAX && (p.Work? && j < |p.tasks| ==> !p.tasks[j].Save?)
    ensures Keeps(s, Executed(s, p, exec).1, j)
  {
    if p.Work? { CellsKeepRest(s, p.tasks, exec, |p.tasks|, j); }
  }

  /** An OK run has every saved cell read back near its coefficient, also after a reload, and has
      kept every other cell. */
  lemma {:induction false} OkRunIsCached(s: Store, p: Plan, exec: seq<Flash>, roll: seq<Flash>)
    requires s.Valid() && |exec| == |roll| && Fits(p, |exec|) && RunOf(s, p, exec, roll).0 == Ok
    ensures p.Stop? ==> RunOf(s, p, exec, roll).1 == s
    ensures p.Work? ==> AllCached(RunOf(s, p, exec, roll).1, p.tasks)
    ensures forall j :: 0 <= j < CELL_MAX && (p.Work? && j < |p.tasks| ==> !p.tasks[j].Save?) ==>
      Keeps(s, RunOf(s, p, exec, roll).1, j)
  {
    if p.Work? { OkMeansCached(s, p.tasks, exec); }
    forall j | 0 <= j < CELL_MAX && (p.Work? && j < |p.tasks| ==> !p.tasks[j].Save?)
      ensures Keeps(s, RunOf(s, p, exec, roll).1, j)
    {
      ExecutedKeeps(s, p, exec, j);
    }
  }

  /** Every OK run, whatever flash does, leaves every coefficient in flash exactly when no cell
      already read back near its new one, or the run cannot succeed anyway. */
  lemma {:induction false} OkRunIsInFlashIff(s: Store, tasks: seq<Task>)
    requires s.Valid() && |tasks| <= CELL_MAX && SensibleTasks(tasks)
    ensures (forall exec: seq<Flash>, roll: seq<Flash> ::
        |exec| == |roll| == |tasks| && RunOf(s, Work(tasks), exec, roll).0 == Ok ==>
          AllInFlash(RunOf(s, Work(tasks), exec, roll).1, tasks))
      <==> LastRefusal(tasks, |tasks|) != Ok || forall i :: 0 <= i < |tasks| ==> !Unchanged(s, tasks, i)
  {
    if LastRefusal(tasks, |tasks|) != Ok || forall i :: 0 <= i < |tasks| ==> !Unchanged(s, tasks, i) {
      forall exec: seq<Flash>, roll: seq<Flash> |
        |exec| == |roll| == |tasks| && RunOf(s, Work(tasks), exec, roll).0 == Ok
        ensures AllInFlash(RunOf(s, Work(tasks), exec, roll).1, tasks)
      {
        ChangedIsInFlash(s, tasks, exec);
      }
    } else {
      var k :| 0 <= k < |tasks| && Unchanged(s, tasks, k);
      DroppedKeyIsOk(s, tasks, k);
      var exec := Dropping(tasks, k);
      assert RunOf(s, Work(tasks), exec, exec) == Cells(s, tasks, exec, |tasks|);
      assert !AllInFlash(RunOf(s, Work(tasks), exec, exec).1, tasks);
    }
  }

  /** A failed run whose rollback saves all report success reads back every starting coefficient
      exactly when each of those saves restores; cells that are not configured are kept in any
      case. */
  lemma {:induction false} FailedRunIsRolledBackIff(s: Store, p: Plan, exec: seq<Flash>, roll: seq<Flash>)
    requires s.Valid() && |exec| == |roll| && Fits(p, |exec|) && RunOf(s, p, exec, roll).0 != Ok
    requires forall k :: 0 <= k < |roll| ==> roll[k].Reports()
    ensures RolledBack(s, RunOf(s, p, exec, roll).1, |roll|)
      <==> forall k :: 0 <= k < |roll| ==> Restores(s, Executed(s, p, exec).1, roll[k], k)
    ensures forall j :: |roll| <= j < CELL_MAX ==> Keeps(s, RunOf(s, p, exec, roll).1, j)
  {
    var x := Executed(s, p, exec).1;
    RolledBackIff(s, x, roll);
    forall j | |roll| <= j < CELL_MAX ensures Keeps(s, RunOf(s, p, exec, roll).1, j) {
      ExecutedKeeps(s, p, exec, j);
      RestoreKeepsRest(x, s.cache, roll, |roll|, j);
    }
  }

  /** Honest rollback saves restore every starting coefficient. */
  lemma {:induction false} HonestRollback(s: Store, p: Plan, exec: seq<Flash>, roll: seq<Flash>)
    requires s.Valid() && |exec| == |roll| && Fits(p, |exec|) && RunOf(s, p, exec, roll).0 != Ok
    requires forall k :: 0 <= k < |roll| ==> roll[k].Honest(s.cache[k])
    ensures RolledBack(s, RunOf(s, p, exec, roll).1, |roll|)
  {
    FailedRunIsRolledBackIff(s, p, exec, roll);
  }

  /** Even a request rejected at once can lose a coefficient, although every rollback save
      reports success: flash keeps something else and nobody reads it back. */
  lemma {:induction false} RejectedRunCanLose(s: Store, result: CalResult, n: nat) returns (roll: seq<Flash>)
    requires s.Valid() && result != Ok && 0 < n <= CELL_MAX
    ensures |roll| == n && forall k :: 0 <= k < n ==> roll[k].Reports()
    ensures var r := RunOf(s, Stop(result), roll, roll); r.0 == result && !RolledBack(s, r.1, n)
  {
    roll := seq(n, k requires 0 <= k < n => Flash(true, Instead(Some(s.cache[0] + 1.0)), true, {}));
    FailedRunIsRolledBackIff(s, Stop(result), roll, roll);
    assert !Restores(s, s, roll[0], 0);
  }

  /** On a store that does what it says, the request and the readings decide the result. */
  lemma HonestRun(s: Store, p: Plan, exec: seq<Flash>, roll: seq<Flash>)
    requires s.Valid() && |exec| == |roll| && Fits(p, |exec|)
    requires p.Work? ==> forall i :: 0 <= i < |p.tasks| && p.tasks[i].Save? ==> exec[i].Honest(p.tasks[i].coeff)
    ensures RunOf(s, p, exec, roll).0 == match p case Stop(r) => r case Work(tasks) => LastRefusal(tasks, |tasks|)
  {
    if p.Work? { HonestCells(s, p.tasks, exec, |p.tasks|); }
  }

  // ---- What the cells are calibrated against ----

  /** With coefficient `c`, the sample behind the reading is a PPO2 of `target` centibar. */
  predicate ReadsAs(t: CellType, r: Reading, c: real, target: nat) {
    match t
    case Analog => c * CountsToMillis(RawCounts(r.millivolts)) == target as real
    case DiveO2 => c != 0.0 && Magnitude(Truncate(r.precision * 1000000.0)) as real / c == target as real / 100.0
    case O2S => c * r.precision == target as real / 100.0
  }

  /** Coefficient `x` is within the tolerance of one in the envelope that reads the target. */
  ghost predicate CalibratedTo(t: CellType, r: Option<Reading>, x: real, target: nat) {
    r.Some? && exists c :: ReadsAs(t, r.value, c, target) && InEnvelope(t, c) && Near(x, c)
  }

  lemma SavedReadsTarget(t: CellType, r: Option<Reading>, target: nat, analogOnly: bool)
    requires TaskOf(t, r, target, analogOnly).Save?
    ensures r.Some? && ReadsAs(t, r.value, TaskOf(t, r, target, analogOnly).coeff, target)
    ensures InEnvelope(t, TaskOf(t, r, target, analogOnly).coeff)
  {
    SavedIsInEnvelope(t, r, target, analogOnly);
    match t
    case Analog => AnalogReadsBack(RawCounts(r.value.millivolts), target);
    case DiveO2 => DiveO2ReadsBack(Truncate(r.value.precision * 1000000.0), target);
    case O2S => O2SReadsBack(r.value.precision / 1.0, target);
  }

  /** A sample too small to divide by. */
  predicate Silent(t: CellType, r: Reading) {
    match t
    case Analog => RawCounts(r.millivolts) == 0
    case DiveO2 => Truncate(r.precision * 1000000.0) == 0
    case O2S => -0.000001 < r.precision < 0.000001
  }

  /** A reading is accepted exactly when some coefficient in the envelope turns it into the target;
      a refused one is a failure if it is too small, and out of range otherwise. */
  lemma AcceptedIff(t: CellType, r: Reading, target: nat)
    requires target > 0
    ensures TaskOf(t, Some(r), target, false).Save? <==> exists c :: ReadsAs(t, r, c, target) && InEnvelope(t, c)
    ensures TaskOf(t, Some(r), target, false) == Refuse(Failed) <==> Silent(t, r)
    ensures TaskOf(t, Some(r), target, false).Refuse? && !Silent(t, r) ==>
      TaskOf(t, Some(r), target, false) == Refuse(OutOfRange)
  {
    if TaskOf(t, Some(r), target, false).Save? { SavedReadsTarget(t, Some(r), target, false); }
    if c :| ReadsAs(t, r, c, target) && InEnvelope(t, c) { ReadingIsAccepted(t, r, c, target); }
    if t.Analog? { CountsAreSilent(RawCounts(r.millivolts)); }
  }

  lemma CountsAreSilent(counts: int)
    ensures CountsToMillis(counts) < MIN_DIVISOR <==> counts == 0
  {}

  lemma ReadingIsAccepted(t: CellType, r: Reading, c: real, target: nat)
    requires target > 0 && ReadsAs(t, r, c, target) && InEnvelope(t, c)
    ensures Coefficient(t, r, target) == c
  {
    match t
    case Analog => AnalogIsAccepted(RawCounts(r.millivolts), c, target);
    case DiveO2 => DiveO2IsAccepted(Truncate(r.precision * 1000000.0), c, target);
    case O2S => O2SIsAccepted(r.precision / 1.0, c, target);
  }

  lemma AnalogIsAccepted(counts: int, c: real, target: nat)
    requires target > 0 && c * CountsToMillis(counts) == target as real && 0.01428 <= c <= 0.02625
    ensures AnalogCoefficient(counts, target) == c
  {
    CountsAreSilent(counts);
    FactorsAreNotZero(c, CountsToMillis(counts), target as real);
    QuotientIs(target as real, CountsToMillis(counts), c);
  }

  lemma DiveO2IsAccepted(raw: int, c: real, target: nat)
    requires target > 0 && 800000.0 <= c <= 1100000.0 && Magnitude(raw) as real / c == target as real / 100.0
    ensures DiveO2Coefficient(raw, target) == c
  {
    var m, bar := Magnitude(raw) as real, target as real / 100.0;
    DivMul(m, c);
    QuotientIs(m, bar, c);
  }

  lemma O2SIsAccepted(sample: real, c: real, target: nat)
    requires target > 0 && 0.8 <= c <= 1.2 && c * sample == target as real / 100.0
    ensures O2SCoefficient(sample, target) == c
  {
    var bar := target as real / 100.0;
    LargeEnough(c, sample, bar);
    QuotientIs(bar, sample, c);
  }

  lemma FactorsAreNotZero(c: real, d: real, product: real)
    requires c * d == product && product != 0.0
    ensures c != 0.0 && d != 0.0
  {}

  lemma LargeEnough(c: real, x: real, product: real)
    requires 0.0 < c <= 1.2 && c * x == product && product >= 0.01
    ensures x >= MIN_DIVISOR
  {
    if x > 0.0 {
      assert (1.2 - c) * x >= 0.0;
    }
  }

  lemma QuotientIs(a: real, b: real, c: real)
    requires b != 0.0 && c * b == a
    ensures a / b == c
  {
    DivMul(a, b);
    assert (a / b - c) * b == 0.0;
  }

  lemma {:induction false} NoTaskRejects(s: Store, tasks: seq<Task>, es: seq<Flash>, n: nat)
    requires s.Valid() && n <= |tasks| == |es| <= CELL_MAX
    requires forall i :: 0 <= i < |tasks| && tasks[i].Refuse? ==> tasks[i].result != Rejected
    ensures Cells(s, tasks, es, n).0 != Rejected
  {
    if n > 0 { NoTaskRejects(s, tasks, es, n - 1); }
  }

  predicate Absolute(m: Method) { m == AnalogAbsolute || m == TotalAbsolute || m == SolenoidFlush }

  lemma PlanOfAbsolute(
      types: seq<CellType>, hasCheck: bool, req: Request, rs: seq<Option<Reading>>, ref: Option<Reference>, t: nat)
    requires |types| == |rs| && Absolute(req.kind) && 1000 * t <= req.fo2 * req.pressure < 1000 * (t + 1)
    ensures PlanOf(types, hasCheck, req, rs, ref) ==
      if req.fo2 > 100 || t > 254 then Stop(Rejected) else Work(TasksOf(types, rs, t, false))
  {}

  /** With an absolute method a run is rejected exactly when the fraction is over 100 % or the
      PPO2 of the mix does not fit the wire. Flash has no say in it. */
  lemma AbsoluteRejectedIff(
      s: Store, types: seq<CellType>, hasCheck: bool, req: Request, rs: seq<Option<Reading>>, ref: Option<Reference>,
      exec: seq<Flash>, roll: seq<Flash>)
    requires s.Valid() && |types| == |rs| == |exec| == |roll| <= CELL_MAX && Absolute(req.kind)
    ensures RunOf(s, PlanOf(types, hasCheck, req, rs, ref), exec, roll).0 == Rejected <==>
      req.fo2 > 100 || req.fo2 * req.pressure >= 255000
  {
    var product := req.fo2 * req.pressure;
    PlanOfAbsolute(types, hasCheck, req, rs, ref, product / 1000);
    NoTaskRejects(s, TasksOf(types, rs, product / 1000, false), exec, |types|);
  }

  /** After an OK run of an absolute method every configured cell has been read, and with the
      coefficient now in the cache that reading is the PPO2 of the mix in whole centibar. */
  lemma AbsoluteRunCalibrates(
      s: Store, types: seq<CellType>, hasCheck: bool, req: Request, rs: seq<Option<Reading>>, ref: Option<Reference>,
      exec: seq<Flash>, roll: seq<Flash>, t: nat, i: nat)
    requires s.Valid() && i < |types| == |rs| == |exec| == |roll| <= CELL_MAX && Absolute(req.kind)
    requires RunOf(s, PlanOf(types, hasCheck, req, rs, ref), exec, roll).0 == Ok
    requires 1000 * t <= req.fo2 * req.pressure < 1000 * (t + 1)
    ensures CalibratedTo(types[i], rs[i],
      RunOf(s, PlanOf(types, hasCheck, req, rs, ref), exec, roll).1.cache[i], t)
  {
    PlanOfAbsolute(types, hasCheck, req, rs, ref, t);
    OkCellIsCalibrated(s, types, rs, t, false, exec, roll, i);
  }

  lemma OkCellIsCalibrated(
      s: Store, types: seq<CellType>, rs: seq<Option<Reading>>, target: nat, analogOnly: bool,
      exec: seq<Flash>, roll: seq<Flash>, i: nat)
    requires s.Valid() && i < |types| == |rs| == |exec| == |roll| <= CELL_MAX && (analogOnly ==> types[i].Analog?)
    requires RunOf(s, Work(TasksOf(types, rs, target, analogOnly)), exec, roll).0 == Ok
    ensures CalibratedTo(types[i], rs[i],
      RunOf(s, Work(TasksOf(types, rs, target, analogOnly)), exec, roll).1.cache[i], target)
  {
    var tasks := TasksOf(types, rs, target, analogOnly);
    OkMeansNoRefusal(s, tasks, exec, |tasks|);
    NoRefusal(tasks, |tasks|, i);
    OkRunIsCached(s, Work(tasks), exec, roll);
    assert tasks[i] == TaskOf(types[i], rs[i], target, analogOnly);
    SavedReadsTarget(types[i], rs[i], target, analogOnly);
    assert Cached(RunOf(s, Work(tasks), exec, roll).1, i, tasks[i].coeff);
  }

  /** Against a digital reference a run is rejected exactly when the fraction is over 100 % or the
      reference is missing, unhealthy or reports a pressure outside 1 to 65535 mbar. An OK run
      calibrates the analog cells to the reference's PPO2 and keeps the others. */
  lemma ReferenceRunCalibrates(
      s: Store, types: seq<CellType>, hasCheck: bool, req: Request, rs: seq<Option<Reading>>, ref: Option<Reference>,
      exec: seq<Flash>, roll: seq<Flash>)
    requires s.Valid() && |types| == |rs| == |exec| == |roll| <= CELL_MAX && req.kind == DigitalReference
    ensures var r := RunOf(s, PlanOf(types, hasCheck, req, rs, ref), exec, roll);
      && (r.0 == Rejected <==>
            || req.fo2 > 100 || ref.None? || !ref.value.healthy
            || ref.value.pressureUbar < 1000 || ref.value.pressureUbar >= 65536000)
      && (r.0 == Ok ==> forall i :: 0 <= i < |types| ==>
            if types[i].Analog? then CalibratedTo(types[i], rs[i], r.1.cache[i], ref.value.ppo2)
            else Keeps(s, r.1, i))
  {
    var p := PlanOf(types, hasCheck, req, rs, ref);
    var r := RunOf(s, p, exec, roll);
    if p.Work? {
      NoTaskRejects(s, p.tasks, exec, |types|);
      if r.0 == Ok {
        OkRunIsCached(s, p, exec, roll);
        forall i | 0 <= i < |types|
          ensures if types[i].Analog? then CalibratedTo(types[i], rs[i], r.1.cache[i], ref.value.ppo2)
                  else Keeps(s, r.1, i)
        {
          if types[i].Analog? { OkCellIsCalibrated(s, types, rs, ref.value.ppo2, true, exec, roll, i); }
        }
      }
    }
  }

  // ---- The code ----

  /** The millivolts reported for a cell: only analog cells that were read have any. */
  function CellMv(t: CellType, r: Option<Reading>): nat {
    if t.Analog? && r.Some? then r.value.millivolts / 100 % 256 else 0
  }

  /** The response lists the millivolts of the first `n` cells that were to be calibrated. */
  ghost predicate ReportsMv(mvs: seq<nat>, types: seq<CellType>, rs: seq<Option<Reading>>, analogOnly: bool, n: nat)
    requires n <= |types| == |rs| <= CELL_MAX
  {
    && |mvs| == CELL_MAX
    && forall i :: 0 <= i < CELL_MAX ==>
      mvs[i] == if i < n && Takes(types[i], analogOnly) then CellMv(types[i], rs[i]) else 0
  }

  /** The millivolts a request reports: those of the cells its method reads. */
  ghost predicate Lists(mvs: seq<nat>, types: seq<CellType>, p: Plan, req: Request, rs: seq<Option<Reading>>)
    requires |types| == |rs| <= CELL_MAX
  {
    if p.Work? then ReportsMv(mvs, types, rs, req.kind == DigitalReference, |types|) else mvs == [0, 0, 0]
  }

  class Calibrator {
    const types: seq<CellType>
    const hasCheck: bool
    var store: Store
    var published: seq<Response>

    ghost predicate Valid() reads this {
      |types| <= CELL_MAX && store.Valid()
    }

    /** calibration_store_save: write, then reload the cache from flash. */
    method StoreSave(i: nat, coeff: real, e: Flash) returns (ok: bool)
      requires Valid() && i < CELL_MAX
      modifies this`store
      ensures Valid() && store == AfterSave(old(store), i, coeff, e) && ok == e.Reports()
    {
      store := store.(nvs := store.nvs[i := e.Stored(coeff)]);
      ok := e.written;
      if ok {
        LoadSubtree(e);
        ok := e.loaded;
      }
      assert store.cache == AfterSave(old(store), i, coeff, e).cache;
    }

    /** The settings handler is called for the keys present; a failing load may miss any of them. */
    method LoadSubtree(e: Flash)
      requires Valid() && e.written
      modifies this`store
      ensures Valid() && store.nvs == old(store.nvs)
      ensures forall j :: 0 <= j < CELL_MAX ==>
        store.cache[j] == if Delivers(e, j) then old(store).Reloaded(j) else old(store).cache[j]
    {
      var cache := store.cache;
      for k := 0 to CELL_MAX
        invariant |cache| == CELL_MAX && store == old(store)
        invariant forall j :: 0 <= j < k ==> cache[j] == if Delivers(e, j) then store.Reloaded(j) else store.cache[j]
        invariant forall j :: k <= j < CELL_MAX ==> cache[j] == store.cache[j]
      {
        if store.nvs[k].Some? && (e.loaded || k in e.delivered) { cache := cache[k := store.nvs[k].value]; }
      }
      store := store.(cache := cache);
    }

    /** calibration_store_load answers from the cache. */
    function StoreLoad(i: nat): Option<real>
      requires Valid()
      reads this
    {
      if i < CELL_MAX then Some(store.cache[i]) else None
    }

    method ValidateAndSave(i: nat, coeff: real, e: Flash) returns (result: CalResult)
      requires Valid() && i < CELL_MAX
      modifies this`store
      ensures Valid()
      ensures (result, store) ==
        CellStep(old(store), i, if coeff < 0.0 then Refuse(ClassifyCoeffError(coeff)) else Save(coeff), e)
    {
      if coeff < 0.0 {
        return ClassifyCoeffError(coeff);
      }
      var ok := StoreSave(i, coeff, e);
      if !ok { return Failed; }
      var readback := StoreLoad(i);
      if readback.None? { return Failed; }
      if Abs(readback.value - coeff) > TOLERANCE { return Failed; }
      result := Ok;
    }

    /** calibrate_cell, for the reading on the cell's channel. */
    method CalibrateCell(i: nat, target: nat, reading: Option<Reading>, e: Flash) returns (result: CalResult, mv: nat)
      requires Valid() && i < |types|
      modifies this`store
      ensures Valid() && mv == CellMv(types[i], reading)
      ensures (result, store) == CellStep(old(store), i, TaskOf(types[i], reading, target, false), e)
    {
      mv := 0;
      if reading.None? { return Failed, 0; }
      var coeff := Coefficient(types[i], reading.value, target);
      if types[i].Analog? { mv := reading.value.millivolts / 100 % 256; }
      result := ValidateAndSave(i, coeff, e);
    }

    /** The loop of the absolute and digital-reference methods. It goes on after a failure. */
    method CalibrateCells(target: nat, analogOnly: bool, rs: seq<Option<Reading>>, es: seq<Flash>)
      returns (result: CalResult, mvs: seq<nat>)
      requires Valid() && |rs| == |types| == |es|
      modifies this`store
      ensures Valid() && ReportsMv(mvs, types, rs, analogOnly, |types|)
      ensures (result, store) == Cells(old(store), TasksOf(types, rs, target, analogOnly), es, |types|)
    {
      result, mvs := Ok, [0, 0, 0];
      ghost var tasks := TasksOf(types, rs, target, analogOnly);
      for i := 0 to |types|
        invariant Valid() && ReportsMv(mvs, types, rs, analogOnly, i)
        invariant (result, store) == Cells(old(store), tasks, es, i)
      {
        if Takes(types[i], analogOnly) {
          var cell, mv := CalibrateCell(i, target, rs[i], es[i]);
          mvs := mvs[i := mv];
          if cell != Ok { result := cell; }
        }
      }
    }

    /** The absolute methods: every configured cell, analog or not, against a given mix. */
    method CalAbsolute(req: Request, rs: seq<Option<Reading>>, es: seq<Flash>)
      returns (result: CalResult, mvs: seq<nat>)
      requires Valid() && |rs| == |types| == |es| && req.fo2 <= CAL_FO2_MAX
      requires req.kind == AnalogAbsolute || req.kind == TotalAbsolute || req.kind == SolenoidFlush
      modifies this`store
      ensures Valid()
      ensures var p := PlanOf(types, hasCheck, req, rs, None);
        (result, store) == Executed(old(store), p, es) && Lists(mvs, types, p, req, rs)
    {
      var target := TargetPpo2(req.fo2, req.pressure);
      if target.None? { return Rejected, [0, 0, 0]; }
      result, mvs := CalibrateCells(target.value, false, rs, es);
    }

    method CalDigitalReference(req: Request, ref: Option<Reference>, rs: seq<Option<Reading>>, es: seq<Flash>)
      returns (result: CalResult, mvs: seq<nat>)
      requires Valid() && |rs| == |types| == |es| && req.fo2 <= CAL_FO2_MAX && req.kind == DigitalReference
      modifies this`store
      ensures Valid()
      ensures var p := PlanOf(types, hasCheck, req, rs, ref);
        (result, store) == Executed(old(store), p, es) && Lists(mvs, types, p, req, rs)
    {
      if ref.None? || !ref.value.healthy { return Rejected, [0, 0, 0]; }
      var ubar := ref.value.pressureUbar;
      var pressure := if ubar >= 0 then ubar / 1000 else -(-ubar / 1000);
      if pressure <= 0 || pressure > 0xFFFF { return Rejected, [0, 0, 0]; }
      result, mvs := CalibrateCells(ref.value.ppo2, true, rs, es);
    }

    // The states of one run; each entry action ends by entering the next state.

    method Publish(resp: Response)
      modifies this`published
      ensures published == old(published) + [resp]
    {
      published := published + [resp];
    }

    /** Save every old coefficient again. The saves are not read back. */
    method RestoringOnFail(previous: seq<real>, resp: Response, es: seq<Flash>)
      requires Valid() && |previous| == CELL_MAX && |es| == |types|
      modifies this
      ensures Valid() && published == old(published) + [resp] && store == Restored(old(store), previous, es, |es|)
    {
      for i := 0 to |types|
        invariant Valid() && published == old(published) && store == Restored(old(store), previous, es, i)
      {
        var _ := StoreSave(i, previous[i], es[i]);
      }
      Publish(resp);
    }

    method Execute(req: Request, rs: seq<Option<Reading>>, ref: Option<Reference>, es: seq<Flash>)
      returns (resp: Response)
      requires Valid() && |rs| == |types| == |es| && req.fo2 <= CAL_FO2_MAX
      modifies this`store
      ensures Valid()
      ensures var p := PlanOf(types, hasCheck, req, rs, ref);
        (resp.result, store) == Executed(old(store), p, es) && Lists(resp.cellMv, types, p, req, rs)
    {
      var result, mvs := Rejected, [0, 0, 0];
      match req.kind {
        case DigitalReference => result, mvs := CalDigitalReference(req, ref, rs, es);
        case AnalogAbsolute => result, mvs := CalAbsolute(req, rs, es);
        case TotalAbsolute => result, mvs := CalAbsolute(req, rs, es);
        case SolenoidFlush => result, mvs := CalAbsolute(req, rs, es);
        case Check => if hasCheck { result := Ok; }
        case Unknown =>
      }
      resp := Response(result, mvs);
    }

    /** One calibration, from the snapshot to the response. `exec` and `roll` say what flash does
        with the saves of the cells and of the rollback. */
    method Run(req: Request, rs: seq<Option<Reading>>, ref: Option<Reference>, exec: seq<Flash>, roll: seq<Flash>)
      returns (resp: Response)
      requires Valid() && |rs| == |types| == |exec| == |roll|
      modifies this
      ensures Valid() && published == old(published) + [resp]
      ensures var p := PlanOf(types, hasCheck, req, rs, ref);
        (resp.result, store) == RunOf(old(store), p, exec, roll) && Lists(resp.cellMv, types, p, req, rs)
    {
      var previous := [0.0, 0.0, 0.0];
      for i := 0 to |types|
        invariant |previous| == CELL_MAX && store == old(store) && published == old(published)
        invariant forall j :: 0 <= j < i ==> previous[j] == store.cache[j]
      {
        var loaded := StoreLoad(i);
        if loaded.Some? { previous := previous[i := loaded.value]; }
      }
      resp := Response(Failed, [0, 0, 0]);
      if CAL_FO2_MAX < req.fo2 {
        resp := resp.(result := Rejected);
        RestoredSame(store, previous, old(store).cache, roll, |roll|);
        RestoringOnFail(previous, resp, roll);
        return;
      }
      resp := Execute(req, rs, ref, exec);
      if resp.result == Ok {
        Publish(resp);
      } else {
        RestoredSame(store, previous, old(store).cache, roll, |roll|);
        RestoringOnFail(previous, resp, roll);
      }
    }
  }
}
