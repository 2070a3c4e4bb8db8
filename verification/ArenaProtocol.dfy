/** Arena claims, releases, pins and the periodic save worker as interleaved steps of
    any number of threads: each mutex acquire, test, assignment and unlock is one step,
    and a thread may be preempted between any two. Sources: maintenance_arena.c,
    error_histogram.c. */
module ArenaProtocol {
  import opened Arena

  type ThreadId = nat
  datatype Holder = Nobody | Held(thread: ThreadId)

  /** Where a thread stands. `Want` states are blocked in k_mutex_lock. */
  datatype Pc =
    | Idle
    | ClaimWant(o: Owner) | ClaimCheck(o: Owner)
    | PauseWant(o: Owner) | PauseInc(o: Owner) | PauseUnlock(o: Owner)
    | ClaimBump(o: Owner) | ClaimContent(o: Owner) | ClaimOwner(o: Owner)
    | ClaimUnlock(o: Owner, granted: bool)
    | ReleaseWant(o: Owner) | ReleaseCheck(o: Owner)
    | ResumeWant(wasOwned: bool) | ResumeDec(wasOwned: bool) | ResumeUnlock | ReleaseUnlock
    | PinWant(b: bool) | PinSet(b: bool) | PinUnlock
    | SaveWant | SaveCheck | SaveWriting | SaveUnlock

  predicate InArenaLock(pc: Pc) {
    match pc
    case Idle => false
    case ClaimWant(_) => false
    case ReleaseWant(_) => false
    case PinWant(_) => false
    case SaveWant => false
    case SaveCheck => false
    case SaveWriting => false
    case SaveUnlock => false
    case _ => true
  }

  predicate InSaveGate(pc: Pc) {
    match pc
    case PauseInc(_) => true
    case PauseUnlock(_) => true
    case ResumeDec(_) => true
    case ResumeUnlock => true
    case SaveCheck => true
    case SaveWriting => true
    case SaveUnlock => true
    case _ => false
  }

  /** A claim that has been granted and is on its way to taking the arena. */
  predicate Taking(pc: Pc) {
    pc.PauseWant? || pc.PauseInc? || pc.PauseUnlock? || pc.ClaimBump? || pc.ClaimContent? || pc.ClaimOwner?
  }

  /** `bumps` counts generation changes without the 32-bit wrap. `builtGen` is what the log
      index recorded at its last build, `builtAt` the value of `bumps` then, and `writers`
      the owners that have written the arena bytes since. */
  datatype State = State(
    lock: Holder, gate: Holder,
    arena: ArenaState, depth: int, dirty: bool,
    pcs: map<ThreadId, Pc>,
    bumps: nat, builtGen: nat, builtAt: nat, writers: seq<Owner>)

  /** `Advance` runs a thread's next statement; `ok` is the result of an NVS write. */
  datatype Action =
    | StartClaim(o: Owner) | StartRelease(o: Owner) | StartPin(b: bool) | StartSave
    | Advance(ok: bool)
    | WriteBytes(o: Owner)
    | RecordBuild
    | ErrorEvent

  predicate Enabled(s: State, t: ThreadId, a: Action) {
    && t in s.pcs
    && match a
       case StartClaim(_) => s.pcs[t].Idle?
       case StartRelease(_) => s.pcs[t].Idle?
       case StartPin(_) => s.pcs[t].Idle?
       case StartSave => s.pcs[t].Idle?
       case Advance(_) => CanAdvance(s, s.pcs[t])
       case WriteBytes(o) => s.arena.owner == o && WritesScratch(o)
       case RecordBuild => true
       case ErrorEvent => true
  }

  predicate CanAdvance(s: State, pc: Pc) {
    match pc
    case Idle => false
    case ClaimWant(_) => s.lock == Nobody
    case ReleaseWant(_) => s.lock == Nobody
    case PinWant(_) => s.lock == Nobody
    case PauseWant(_) => s.gate == Nobody
    case ResumeWant(_) => s.gate == Nobody
    case SaveWant => s.gate == Nobody
    case _ => true
  }

  function At(s: State, t: ThreadId, pc: Pc): State {
    s.(pcs := s.pcs[t := pc])
  }

  function Do(s: State, t: ThreadId, a: Action): State
    requires Enabled(s, t, a)
  {
    match a
    case StartClaim(o) => if o == Free then s else At(s, t, ClaimWant(o))
    case StartRelease(o) => At(s, t, ReleaseWant(o))
    case StartPin(b) => At(s, t, PinWant(b))
    case StartSave => At(s, t, SaveWant)
    case Advance(ok) => Next(s, t, s.pcs[t], ok)
    case WriteBytes(o) => s.(writers := s.writers + [o])
    case RecordBuild => s.(builtGen := s.arena.generation, builtAt := s.bumps, writers := [])
    case ErrorEvent => s.(dirty := true)
  }

  /** Control flow: the statement after `pc`. */
  function NextPc(s: State, pc: Pc): Pc {
    match pc
    case Idle => Idle
    case ClaimWant(o) => ClaimCheck(o)
    case ClaimCheck(o) =>
      if !Grants(s.arena, o) then ClaimUnlock(o, false)
      else if s.arena.owner == Free then PauseWant(o)
      else ClaimBump(o)
    case PauseWant(o) => PauseInc(o)
    case PauseInc(o) => PauseUnlock(o)
    case PauseUnlock(o) => ClaimBump(o)
    case ClaimBump(o) => if TakesContents(s.arena, o) then ClaimContent(o) else ClaimOwner(o)
    case ClaimContent(o) => ClaimOwner(o)
    case ClaimOwner(o) => ClaimUnlock(o, true)
    case ClaimUnlock(_, _) => Idle
    case ReleaseWant(o) => ReleaseCheck(o)
    case ReleaseCheck(o) => if s.arena.owner == o then ResumeWant(o != Free) else ReleaseUnlock
    case ResumeWant(w) => ResumeDec(w)
    case ResumeDec(_) => ResumeUnlock
    case ResumeUnlock => ReleaseUnlock
    case ReleaseUnlock => Idle
    case PinWant(b) => PinSet(b)
    case PinSet(_) => PinUnlock
    case PinUnlock => Idle
    case SaveWant => SaveCheck
    case SaveCheck => if s.depth == 0 && s.dirty then SaveWriting else SaveUnlock
    case SaveWriting => SaveUnlock
    case SaveUnlock => Idle
  }

  /** What the statement at `pc` does to the shared state. */
  function Effect(s: State, t: ThreadId, pc: Pc, ok: bool): State {
    match pc
    case ClaimWant(_) => s.(lock := Held(t))
    case PauseWant(_) => s.(gate := Held(t))
    case PauseInc(_) => s.(depth := s.depth + 1)
    case PauseUnlock(_) => s.(gate := Nobody)
    case ClaimBump(o) =>
      if TakesContents(s.arena, o) then
        s.(arena := s.arena.(generation := (s.arena.generation + 1) % GENERATION_RANGE), bumps := s.bumps + 1)
      else s
    case ClaimContent(o) => s.(arena := s.arena.(contentOwner := o))
    case ClaimOwner(o) => s.(arena := s.arena.(owner := o))
    case ClaimUnlock(_, _) => s.(lock := Nobody)
    case ReleaseWant(_) => s.(lock := Held(t))
    case ReleaseCheck(o) => if s.arena.owner == o then s.(arena := s.arena.(owner := Free)) else s
    case ResumeWant(_) => s.(gate := Held(t))
    case ResumeDec(_) => s.(depth := if s.depth > 0 then s.depth - 1 else s.depth)
    case ResumeUnlock => s.(gate := Nobody)
    case ReleaseUnlock => s.(lock := Nobody)
    case PinWant(_) => s.(lock := Held(t))
    case PinSet(b) => s.(arena := s.arena.(building := b))
    case PinUnlock => s.(lock := Nobody)
    case SaveWant => s.(gate := Held(t))
    case SaveWriting => s.(dirty := if ok then false else s.dirty)
    case SaveUnlock => s.(gate := Nobody)
    case _ => s
  }

  function Next(s: State, t: ThreadId, pc: Pc, ok: bool): State {
    Effect(s, t, pc, ok).(pcs := s.pcs[t := NextPc(s, pc)])
  }

  /** A schedule names, step by step, a thread and what it tries; a blocked or
      impossible choice leaves the state as it is. */
  type Schedule = seq<(ThreadId, Action)>

  function Exec(s: State, schedule: Schedule): State
    decreases |schedule|
  {
    if schedule == [] then s
    else
      var (t, a) := schedule[0];
      Exec(if Enabled(s, t, a) then Do(s, t, a) else s, schedule[1..])
  }

  function Boot(threads: set<ThreadId>): State {
    State(Nobody, Nobody, INITIAL, 0, false, map t | t in threads :: Idle, 0, 0, 0, [])
  }

  // ---- The inductive invariant ----

  /** What holds of each thread: it holds a mutex exactly inside that mutex's section,
      and it writes NVS only at depth zero. */
  predicate ThreadMatches(s: State, t: ThreadId)
    requires t in s.pcs
  {
    && (InArenaLock(s.pcs[t]) <==> s.lock == Held(t))
    && (InSaveGate(s.pcs[t]) <==> s.gate == Held(t))
    && (s.pcs[t].SaveWriting? ==> s.depth == 0)
    && (s.pcs[t].ClaimWant? ==> s.pcs[t].o != Free)
  }

  predicate HoldersExist(s: State) {
    (s.lock.Held? ==> s.lock.thread in s.pcs) && (s.gate.Held? ==> s.gate.thread in s.pcs)
  }

  /** The statement the arena-lock holder stands at, Idle when there is none. */
  function HolderPc(s: State): Pc {
    if s.lock.Held? && s.lock.thread in s.pcs then s.pcs[s.lock.thread] else Idle
  }

  /** The pause depth that goes with the arena-lock holder's progress. */
  predicate DepthMatches(a: ArenaState, depth: int, pc: Pc) {
    match pc
    case PauseWant(_) => a.owner == Free && depth == 0
    case PauseInc(_) => a.owner == Free && depth == 0
    case PauseUnlock(_) => a.owner == Free && depth == 1
    case ClaimBump(_) => depth == 1
    case ClaimContent(_) => depth == 1
    case ClaimOwner(_) => depth == 1
    case ResumeWant(w) => a.owner == Free && depth == if w then 1 else 0
    case ResumeDec(w) => a.owner == Free && depth == if w then 1 else 0
    case ResumeUnlock => a.owner == Free && depth == 0
    case _ => depth == Hold(a)
  }

  /** The arena as a claim by `o` leaves it. */
  predicate Answered(a: ArenaState, o: Owner, granted: bool) {
    if granted then a.owner == o && o != Free && (WritesScratch(o) ==> a.contentOwner == o)
    else a.owner !in {Free, o} && (a.owner == LogIndex ==> a.building)
  }

  /** What a claim on its way to taking the arena has established. */
  predicate TakingMatches(s: State, pc: Pc) {
    && (Taking(pc) ==> pc.o != Free && Grants(s.arena, pc.o))
    && (pc.ClaimCheck? ==> pc.o != Free)
    && (pc.ClaimContent? ==> WritesScratch(pc.o) && (pc.o == LogIndex && Foreign(s.writers) ==> s.bumps > s.builtAt))
    && (pc.ClaimOwner? && WritesScratch(pc.o) ==> s.arena.contentOwner == pc.o)
    && (pc.ClaimUnlock? ==> Answered(s.arena, pc.o, pc.granted))
  }

  /** Contents follow exclusive ownership, and a log index that still sees its recorded
      generation has only been written by itself. */
  predicate CacheMatches(s: State) {
    && s.arena.generation == s.bumps % GENERATION_RANGE
    && s.builtGen == s.builtAt % GENERATION_RANGE
    && s.builtAt <= s.bumps
    && (WritesScratch(s.arena.owner) && s.arena.owner != LogIndex ==> s.arena.contentOwner == s.arena.owner)
    && (Foreign(s.writers) ==>
          s.bumps > s.builtAt || (s.arena.contentOwner != LogIndex && s.arena.owner != LogIndex))
  }

  /** Some owner other than the log index appears. */
  predicate Foreign(writers: seq<Owner>) {
    exists i :: 0 <= i < |writers| && writers[i] != LogIndex
  }

  predicate SharedMatches(s: State) {
    && HoldersExist(s)
    && DepthMatches(s.arena, s.depth, HolderPc(s))
    && TakingMatches(s, HolderPc(s))
    && CacheMatches(s)
  }

  ghost predicate Inv(s: State) {
    SharedMatches(s) && forall t :: t in s.pcs ==> ThreadMatches(s, t)
  }

  /** A thread's own step keeps what holds of that thread. */
  lemma StepSelf(s: State, t: ThreadId, ok: bool)
    requires t in s.pcs && ThreadMatches(s, t) && CanAdvance(s, s.pcs[t])
    requires HoldersExist(s)
    ensures var s' := Next(s, t, s.pcs[t], ok);
      HoldersExist(s') && t in s'.pcs && ThreadMatches(s', t)
  {}

  lemma StepKeys(s: State, t: ThreadId, ok: bool)
    requires t in s.pcs
    ensures Next(s, t, s.pcs[t], ok).pcs.Keys == s.pcs.Keys
  {}

  /** It does not disturb another thread's part. */
  lemma StepOther(s: State, t: ThreadId, u: ThreadId, ok: bool)
    requires t in s.pcs && u in s.pcs && t != u
    requires ThreadMatches(s, t) && ThreadMatches(s, u) && CanAdvance(s, s.pcs[t])
    ensures var s' := Next(s, t, s.pcs[t], ok);
      u in s'.pcs && ThreadMatches(s', u)
  {}

  /** The statement at the arena lock after a step: the stepping thread's if it is inside,
      otherwise what it was. */
  lemma StepHolder(s: State, t: ThreadId, ok: bool)
    requires t in s.pcs && ThreadMatches(s, t) && CanAdvance(s, s.pcs[t]) && HoldersExist(s)
    ensures var s' := Next(s, t, s.pcs[t], ok);
      && (InArenaLock(s.pcs[t]) ==> HolderPc(s) == s.pcs[t])
      && t in s'.pcs
      && (InArenaLock(s'.pcs[t]) ==> HolderPc(s') == s'.pcs[t])
      && (InArenaLock(s.pcs[t]) && !InArenaLock(s'.pcs[t]) ==> HolderPc(s') == Idle)
      && (!InArenaLock(s.pcs[t]) && InArenaLock(s'.pcs[t]) ==> HolderPc(s) == Idle)
      && (!InArenaLock(s.pcs[t]) && !InArenaLock(s'.pcs[t]) ==>
            HolderPc(s') == HolderPc(s) && s'.arena == s.arena && s'.depth == s.depth)
  {}

  lemma StepDepth(s: State, t: ThreadId, ok: bool)
    requires t in s.pcs && ThreadMatches(s, t) && CanAdvance(s, s.pcs[t]) && SharedMatches(s)
    ensures var s' := Next(s, t, s.pcs[t], ok); DepthMatches(s'.arena, s'.depth, HolderPc(s'))
  {
    StepHolder(s, t, ok);
  }

  lemma StepTaking(s: State, t: ThreadId, ok: bool)
    requires t in s.pcs && ThreadMatches(s, t) && CanAdvance(s, s.pcs[t]) && SharedMatches(s)
    ensures var s' := Next(s, t, s.pcs[t], ok); TakingMatches(s', HolderPc(s'))
  {
    StepHolder(s, t, ok);
  }

  lemma StepCache(s: State, t: ThreadId, ok: bool)
    requires t in s.pcs && ThreadMatches(s, t) && CanAdvance(s, s.pcs[t]) && SharedMatches(s)
    ensures CacheMatches(Next(s, t, s.pcs[t], ok))
  {
    StepHolder(s, t, ok);
  }

  lemma ForeignAppend(w: seq<Owner>, o: Owner)
    ensures Foreign(w + [o]) <==> Foreign(w) || o != LogIndex
  {
    if Foreign(w) {
      var i :| 0 <= i < |w| && w[i] != LogIndex;
      assert (w + [o])[i] != LogIndex;
    }
    if o != LogIndex {
      assert (w + [o])[|w|] != LogIndex;
    }
  }

  /** Starting a call, writing bytes, recording a build or raising an error event. */
  lemma OtherActionInv(s: State, t: ThreadId, a: Action)
    requires Inv(s) && Enabled(s, t, a) && !a.Advance?
    ensures Inv(Do(s, t, a))
  {
    var s' := Do(s, t, a);
    if a.WriteBytes? {
      ForeignAppend(s.writers, a.o);
    }
    assert HolderPc(s') == HolderPc(s) by {
      assert ThreadMatches(s, t);
    }
    forall u | u in s'.pcs
      ensures ThreadMatches(s', u)
    {
      assert ThreadMatches(s, u);
    }
  }

  lemma AdvanceInv(s: State, t: ThreadId, ok: bool)
    requires Inv(s) && t in s.pcs && CanAdvance(s, s.pcs[t])
    ensures Inv(Next(s, t, s.pcs[t], ok))
  {
    assert ThreadMatches(s, t);
    ghost var s' := Next(s, t, s.pcs[t], ok);
    StepSelf(s, t, ok);
    StepKeys(s, t, ok);
    assert forall u :: u in s'.pcs ==> ThreadMatches(s', u) by {
      forall u | u in s'.pcs
        ensures ThreadMatches(s', u)
      {
        if u != t {
          StepOther(s, t, u, ok);
        }
      }
    }
    StepDepth(s, t, ok);
    StepTaking(s, t, ok);
    StepCache(s, t, ok);
  }

  /** Every step of every thread keeps the invariant. */
  lemma StepInv(s: State, t: ThreadId, a: Action)
    requires Inv(s) && Enabled(s, t, a)
    ensures Inv(Do(s, t, a))
  {
    if a.Advance? {
      AdvanceInv(s, t, a.ok);
    } else {
      OtherActionInv(s, t, a);
    }
  }

  lemma {:induction false} RunInv(s: State, schedule: Schedule)
    requires Inv(s)
    ensures Inv(Exec(s, schedule))
    decreases |schedule|
  {
    if schedule == [] {
    } else {
      var (t, a) := schedule[0];
      if Enabled(s, t, a) {
        StepInv(s, t, a);
        RunInv(Do(s, t, a), schedule[1..]);
      } else {
        RunInv(s, schedule[1..]);
      }
    }
  }

  lemma BootInv(threads: set<ThreadId>)
    ensures Inv(Boot(threads))
  {}

  // ---- What holds in every reachable state ----

  /** Ownership and the periodic save exclude each other, whatever the interleaving. */
  lemma OwnedArenaPausesSaves(threads: set<ThreadId>, schedule: Schedule)
    ensures var s := Exec(Boot(threads), schedule);
      && (s.arena.owner != Free ==> s.depth >= 1)
      && (s.arena.owner != Free ==> forall t :: t in s.pcs ==> !s.pcs[t].SaveWriting?)
      && (s.lock == Nobody ==> s.depth == Hold(s.arena))
      && 0 <= s.depth <= 1
  {
    BootInv(threads);
    RunInv(Boot(threads), schedule);
    var s := Exec(Boot(threads), schedule);
    assert SharedMatches(s);
    forall t | t in s.pcs && s.arena.owner != Free
      ensures !s.pcs[t].SaveWriting?
    {
      assert ThreadMatches(s, t);
    }
  }

  /** No two threads are inside the same critical section. */
  lemma SectionsAreExclusive(threads: set<ThreadId>, schedule: Schedule, t: ThreadId, u: ThreadId)
    requires t in Exec(Boot(threads), schedule).pcs && u in Exec(Boot(threads), schedule).pcs && t != u
    ensures var s := Exec(Boot(threads), schedule);
      && !(InArenaLock(s.pcs[t]) && InArenaLock(s.pcs[u]))
      && !(InSaveGate(s.pcs[t]) && InSaveGate(s.pcs[u]))
  {
    BootInv(threads);
    RunInv(Boot(threads), schedule);
    var s := Exec(Boot(threads), schedule);
    assert ThreadMatches(s, t) && ThreadMatches(s, u);
  }

  /** The cache test of the log index is sound: while it owns the arena and sees the
      generation it recorded, and fewer than 2^32 changes lie between, no other owner has
      written the bytes since it recorded. */
  lemma UnchangedGenerationMeansOwnContents(threads: set<ThreadId>, schedule: Schedule)
    ensures var s := Exec(Boot(threads), schedule);
      s.arena.owner == LogIndex && s.arena.generation == s.builtGen && s.bumps - s.builtAt < GENERATION_RANGE ==>
        forall i :: 0 <= i < |s.writers| ==> s.writers[i] == LogIndex
  {
    BootInv(threads);
    RunInv(Boot(threads), schedule);
    var s := Exec(Boot(threads), schedule);
    assert SharedMatches(s);
    if s.arena.owner == LogIndex && s.arena.generation == s.builtGen && s.bumps - s.builtAt < GENERATION_RANGE {
      assert s.bumps == s.builtAt;
      assert !Foreign(s.writers);
    }
  }

  // ---- An owner keeps the arena ----

  /** `o` cannot be evicted: any owner but the log index, and the log index while it builds. */
  predicate Secured(a: ArenaState, o: Owner) {
    a.owner == o && o != Free && (o == LogIndex ==> a.building)
  }

  /** `o` itself releases the arena or, for the log index, drops its pin. */
  predicate GivesUp(s: State, t: ThreadId, a: Action, o: Owner) {
    && a.Advance? && t in s.pcs
    && (s.pcs[t] == ReleaseCheck(o) || (o == LogIndex && s.pcs[t] == PinSet(false)))
  }

  /** `o` gives nothing up along the run. */
  predicate Keeps(s: State, o: Owner, schedule: Schedule)
    decreases |schedule|
  {
    schedule == [] ||
    var (t, a) := schedule[0];
    if Enabled(s, t, a) then !GivesUp(s, t, a, o) && Keeps(Do(s, t, a), o, schedule[1..])
    else Keeps(s, o, schedule[1..])
  }

  /** The owners whose claims the step does not deny, or that write the bytes in it. */
  function TakersIn(s: State, t: ThreadId, a: Action): set<Owner>
    requires Enabled(s, t, a)
  {
    if a.Advance? && s.pcs[t].ClaimCheck? && Do(s, t, a).pcs[t] != ClaimUnlock(s.pcs[t].o, false) then {s.pcs[t].o}
    else if a.WriteBytes? then {a.o}
    else {}
  }

  function Takers(s: State, schedule: Schedule): set<Owner>
    decreases |schedule|
  {
    if schedule == [] then {}
    else
      var (t, a) := schedule[0];
      if Enabled(s, t, a) then TakersIn(s, t, a) + Takers(Do(s, t, a), schedule[1..])
      else Takers(s, schedule[1..])
  }

  /** The contents a new claim would invalidate. */
  predicate SameContents(a: ArenaState, b: ArenaState) {
    a.contentOwner == b.contentOwner && a.generation == b.generation
  }

  lemma SecuredStep(s: State, t: ThreadId, a: Action, o: Owner)
    requires Inv(s) && Secured(s.arena, o) && Enabled(s, t, a) && !GivesUp(s, t, a, o)
    ensures Secured(Do(s, t, a).arena, o)
    ensures o != LogIndex ==> SameContents(s.arena, Do(s, t, a).arena)
    ensures TakersIn(s, t, a) <= {o}
  {
    assert ThreadMatches(s, t);
    assert SharedMatches(s);
  }

  lemma {:induction false} SecuredRun(s: State, o: Owner, schedule: Schedule)
    requires Inv(s) && Secured(s.arena, o) && Keeps(s, o, schedule)
    ensures Secured(Exec(s, schedule).arena, o)
    ensures o != LogIndex ==> SameContents(s.arena, Exec(s, schedule).arena)
    ensures Takers(s, schedule) <= {o}
    decreases |schedule|
  {
    if schedule == [] {
    } else {
      var (t, a) := schedule[0];
      if Enabled(s, t, a) {
        SecuredStep(s, t, a, o);
        StepInv(s, t, a);
        SecuredRun(Do(s, t, a), o, schedule[1..]);
      } else {
        SecuredRun(s, o, schedule[1..]);
      }
    }
  }

  /** From any point of any run, an exclusive owner, or the log index while it builds, keeps
      the arena until it gives it up itself: every other claim decided meanwhile is denied,
      nobody else writes, and an exclusive owner's contents stay current. */
  lemma OwnerKeepsArena(threads: set<ThreadId>, before: Schedule, o: Owner, schedule: Schedule)
    requires var s := Exec(Boot(threads), before);
      && s.arena.owner == o && o != Free && (o == LogIndex ==> s.arena.building)
      && Keeps(s, o, schedule)
    ensures var s := Exec(Boot(threads), before);
      && Exec(s, schedule).arena.owner == o
      && Takers(s, schedule) <= {o}
      && (o != LogIndex ==> SameContents(s.arena, Exec(s, schedule).arena))
  {
    BootInv(threads);
    RunInv(Boot(threads), before);
    SecuredRun(Exec(Boot(threads), before), o, schedule);
  }

  /** In one step of any run, a held arena changes hands only to FREE at its owner's release,
      or from an unpinned log index to the claim that evicts it. */
  lemma OwnerChangesOnlyBy(threads: set<ThreadId>, before: Schedule, t: ThreadId, a: Action)
    requires var s := Exec(Boot(threads), before);
      && Enabled(s, t, a) && s.arena.owner != Free && Do(s, t, a).arena.owner != s.arena.owner
    ensures var s := Exec(Boot(threads), before);
      && a.Advance?
      && (|| (s.pcs[t] == ReleaseCheck(s.arena.owner) && Do(s, t, a).arena.owner == Free)
          || (s.arena.owner == LogIndex && !s.arena.building && s.pcs[t] == ClaimOwner(Do(s, t, a).arena.owner)))
  {
    BootInv(threads);
    RunInv(Boot(threads), before);
    var s := Exec(Boot(threads), before);
    assert ThreadMatches(s, t);
    assert SharedMatches(s);
  }

  /** In every run the answer of a claim is right when it is given: granted exactly when the
      claimant now owns the arena and its contents, denied exactly when another owner that
      cannot be evicted has it. */
  lemma AnswersAreRight(threads: set<ThreadId>, schedule: Schedule, t: ThreadId)
    requires var s := Exec(Boot(threads), schedule); t in s.pcs && s.pcs[t].ClaimUnlock?
    ensures var s := Exec(Boot(threads), schedule);
      var ClaimUnlock(o, granted) := s.pcs[t];
      && (granted <==> s.arena.owner == o)
      && (granted && WritesScratch(o) ==> s.arena.contentOwner == o)
      && (!granted <==> s.arena.owner !in {Free, o} && (s.arena.owner == LogIndex ==> s.arena.building))
  {
    BootInv(threads);
    RunInv(Boot(threads), schedule);
    var s := Exec(Boot(threads), schedule);
    assert ThreadMatches(s, t);
    assert SharedMatches(s);
  }

  // ---- No deadlock ----

  /** Statements left, at most, before the thread is idle again. */
  function Remaining(pc: Pc): nat {
    match pc
    case Idle => 0
    case ClaimWant(_) => 9
    case ClaimCheck(_) => 8
    case PauseWant(_) => 7
    case PauseInc(_) => 6
    case PauseUnlock(_) => 5
    case ClaimBump(_) => 4
    case ClaimContent(_) => 3
    case ClaimOwner(_) => 2
    case ClaimUnlock(_, _) => 1
    case ReleaseWant(_) => 6
    case ReleaseCheck(_) => 5
    case ResumeWant(_) => 4
    case ResumeDec(_) => 3
    case ResumeUnlock => 2
    case ReleaseUnlock => 1
    case PinWant(_) => 3
    case PinSet(_) => 2
    case PinUnlock => 1
    case SaveWant => 4
    case SaveCheck => 3
    case SaveWriting => 2
    case SaveUnlock => 1
  }

  ghost function Work(pcs: map<ThreadId, Pc>, ts: set<ThreadId>): nat
    requires ts <= pcs.Keys
  {
    if ts == {} then 0
    else
      var t :| t in ts;
      Remaining(pcs[t]) + Work(pcs, ts - {t})
  }

  lemma {:induction false} WorkSplit(pcs: map<ThreadId, Pc>, ts: set<ThreadId>, t: ThreadId)
    requires ts <= pcs.Keys && t in ts
    ensures Work(pcs, ts) == Remaining(pcs[t]) + Work(pcs, ts - {t})
  {
    var u :| u in ts && Work(pcs, ts) == Remaining(pcs[u]) + Work(pcs, ts - {u});
    if u != t {
      WorkSplit(pcs, ts - {u}, t);
      WorkSplit(pcs, ts - {t}, u);
      assert ts - {u} - {t} == ts - {t} - {u};
    }
  }

  lemma {:induction false} WorkFrame(p: map<ThreadId, Pc>, q: map<ThreadId, Pc>, ts: set<ThreadId>)
    requires ts <= p.Keys && ts <= q.Keys && forall t :: t in ts ==> p[t] == q[t]
    ensures Work(p, ts) == Work(q, ts)
  {
    if ts != {} {
      var t :| t in ts;
      WorkSplit(p, ts, t);
      WorkSplit(q, ts, t);
      WorkFrame(p, q, ts - {t});
    }
  }

  /** Whenever some thread is inside a call, some thread inside a call can take its next step. */
  lemma SomeThreadCanRun(s: State, u: ThreadId) returns (t: ThreadId)
    requires Inv(s) && u in s.pcs && !s.pcs[u].Idle?
    ensures t in s.pcs && !s.pcs[t].Idle? && CanAdvance(s, s.pcs[t])
  {
    assert ThreadMatches(s, u);
    if s.gate.Held? {
      t := s.gate.thread;
      assert ThreadMatches(s, t);
    } else if s.lock.Held? {
      t := s.lock.thread;
      assert ThreadMatches(s, t);
    } else {
      t := u;
    }
  }

  lemma StepShortensWork(s: State, t: ThreadId)
    requires t in s.pcs && CanAdvance(s, s.pcs[t])
    ensures var s' := Next(s, t, s.pcs[t], true);
      s'.pcs.Keys == s.pcs.Keys && Work(s'.pcs, s'.pcs.Keys) < Work(s.pcs, s.pcs.Keys)
  {
    var s' := Next(s, t, s.pcs[t], true);
    assert s'.pcs.Keys == s.pcs.Keys && Remaining(s'.pcs[t]) < Remaining(s.pcs[t]);
    WorkSplit(s.pcs, s.pcs.Keys, t);
    WorkSplit(s'.pcs, s.pcs.Keys, t);
    WorkFrame(s.pcs, s'.pcs, s.pcs.Keys - {t});
  }

  /** From every reachable state some schedule completes every call in progress:
      the two mutexes never deadlock. */
  lemma {:induction false} EveryCallCanFinish(s: State)
    requires Inv(s)
    ensures exists schedule ::
      var s' := Exec(s, schedule);
      s'.pcs.Keys == s.pcs.Keys && forall t :: t in s'.pcs ==> s'.pcs[t].Idle?
    decreases Work(s.pcs, s.pcs.Keys)
  {
    if u :| u in s.pcs && !s.pcs[u].Idle? {
      var t := SomeThreadCanRun(s, u);
      var a := Advance(true);
      var s1 := Do(s, t, a);
      StepInv(s, t, a);
      StepShortensWork(s, t);
      EveryCallCanFinish(s1);
      var rest :|
        var s' := Exec(s1, rest);
        s'.pcs.Keys == s1.pcs.Keys && forall t :: t in s'.pcs ==> s'.pcs[t].Idle?;
      var schedule := [(t, a)] + rest;
      assert schedule[1..] == rest;
      assert Exec(s, schedule) == Exec(s1, rest);
    } else {
      assert Exec(s, []) == s;
    }
  }

  // ---- A call that is not interrupted ----

  /** A thread running alone for at most `n` statements. */
  function Alone(s: State, t: ThreadId, n: nat): State
    decreases n
  {
    if n == 0 || t !in s.pcs || !CanAdvance(s, s.pcs[t]) then s
    else Alone(Next(s, t, s.pcs[t], true), t, n - 1)
  }

  /** Running `t` alone for `n` statements leads from `s` to `s'`. */
  ghost predicate Leads(s: State, s': State, t: ThreadId, n: nat) {
    forall m: nat :: m >= n ==> Alone(s, t, m) == Alone(s', t, m - n)
  }

  lemma LeadsNext(s: State, t: ThreadId, pc: Pc) returns (s': State)
    requires t in s.pcs && pc == s.pcs[t] && CanAdvance(s, pc)
    ensures s' == Next(s, t, pc, true) && Leads(s, s', t, 1)
  {
    s' := Next(s, t, pc, true);
  }

  lemma LeadsOn(s: State, s': State, s'': State, t: ThreadId, n: nat, m: nat)
    requires Leads(s, s', t, n) && Leads(s', s'', t, m)
    ensures Leads(s, s'', t, n + m)
  {
    forall k: nat | k >= n + m
      ensures Alone(s, t, k) == Alone(s'', t, k - (n + m))
    {
      assert Alone(s, t, k) == Alone(s', t, k - n);
    }
  }

  /** Lock and decide. */
  lemma AloneDecides(s: State, t: ThreadId, o: Owner) returns (s': State)
    requires t in s.pcs && s.pcs[t] == ClaimWant(o) && s.lock == Nobody
    ensures Leads(s, s', t, 2)
    ensures s' == s.(lock := Held(t), pcs := s.pcs[t :=
      if !Grants(s.arena, o) then ClaimUnlock(o, false)
      else if s.arena.owner == Free then PauseWant(o) else ClaimBump(o)])
  {
    var s1 := LeadsNext(s, t, ClaimWant(o));
    s' := LeadsNext(s1, t, ClaimCheck(o));
    LeadsOn(s, s1, s', t, 1, 1);
    assert s'.pcs == s.pcs[t := s'.pcs[t]];
  }

  /** The histogram hold taken on the way out of FREE. */
  lemma AlonePauses(s: State, t: ThreadId, o: Owner) returns (s': State)
    requires t in s.pcs && s.pcs[t] == PauseWant(o) && s.gate == Nobody
    ensures s' == s.(pcs := s.pcs[t := ClaimBump(o)], depth := s.depth + 1)
    ensures Leads(s, s', t, 3)
  {
    var s1 := LeadsNext(s, t, PauseWant(o));
    var s2 := LeadsNext(s1, t, PauseInc(o));
    s' := LeadsNext(s2, t, PauseUnlock(o));
    LeadsOn(s, s1, s2, t, 1, 1);
    LeadsOn(s, s2, s', t, 2, 1);
    assert s'.pcs == s.pcs[t := ClaimBump(o)];
  }

  /** Taking over the contents, up to the statement that sets the owner. */
  lemma AloneBumps(s: State, t: ThreadId, o: Owner) returns (s': State, n: nat)
    requires t in s.pcs && s.pcs[t] == ClaimBump(o)
    ensures n <= 2 && Leads(s, s', t, n)
    ensures s'.pcs == s.pcs[t := ClaimOwner(o)] && s'.gate == s.gate && s'.depth == s.depth
    ensures s'.arena == if TakesContents(s.arena, o)
      then s.arena.(contentOwner := o, generation := (s.arena.generation + 1) % GENERATION_RANGE) else s.arena
  {
    var s1 := LeadsNext(s, t, ClaimBump(o));
    if s1.pcs[t].ClaimContent? {
      s' := LeadsNext(s1, t, ClaimContent(o));
      LeadsOn(s, s1, s', t, 1, 1);
      n := 2;
      assert s'.pcs == s.pcs[t := ClaimOwner(o)];
    } else {
      s', n := s1, 1;
    }
  }

  lemma {:induction false} AloneTakes(s: State, t: ThreadId, o: Owner) returns (s': State, n: nat)
    requires t in s.pcs && s.pcs[t] == ClaimBump(o) && o != Free && Grants(s.arena, o)
    ensures n <= 4 && Leads(s, s', t, n)
    ensures s'.arena == AfterClaim(s.arena, o)
    ensures s'.pcs == s.pcs[t := Idle] && s'.lock == Nobody && s'.gate == s.gate && s'.depth == s.depth
  {
    var s1, m := AloneBumps(s, t, o);
    var s2 := LeadsNext(s1, t, ClaimOwner(o));
    s' := LeadsNext(s2, t, ClaimUnlock(o, true));
    LeadsOn(s, s1, s2, t, m, 1);
    LeadsOn(s, s2, s', t, m + 1, 1);
    n := m + 2;
    assert s'.pcs == s.pcs[t := Idle];
  }

  /** Run without interruption, the stepped claim has the effect of the whole call. */
  lemma {:induction false} AloneClaims(s: State, t: ThreadId, o: Owner) returns (s': State, n: nat)
    requires t in s.pcs && s.pcs[t] == ClaimWant(o) && o != Free
    requires s.lock == Nobody && s.gate == Nobody && s.depth == Hold(s.arena)
    ensures n <= 9 && Leads(s, s', t, n)
    ensures s'.arena == AfterClaim(s.arena, o) && s'.depth == Hold(s'.arena)
    ensures s'.pcs == s.pcs[t := Idle] && s'.lock == Nobody && s'.gate == Nobody
  {
    var s1 := AloneDecides(s, t, o);
    if !Grants(s.arena, o) {
      s' := LeadsNext(s1, t, ClaimUnlock(o, false));
      LeadsOn(s, s1, s', t, 2, 1);
      n := 3;
    } else if s.arena.owner == Free {
      var s2 := AlonePauses(s1, t, o);
      LeadsOn(s, s1, s2, t, 2, 3);
      s', n := AloneTakes(s2, t, o);
      LeadsOn(s, s2, s', t, 5, n);
      n := n + 5;
    } else {
      s', n := AloneTakes(s1, t, o);
      LeadsOn(s, s1, s', t, 2, n);
      n := n + 2;
    }
    assert s'.pcs == s.pcs[t := Idle];
  }

  /** So such a claim takes an arena that is free, its own already, or held by a log index that
      does not build, together with its contents, and otherwise changes nothing. */
  lemma AloneClaimTakes(s: State, t: ThreadId, o: Owner) returns (s': State, n: nat)
    requires t in s.pcs && s.pcs[t] == ClaimWant(o) && o != Free
    requires s.lock == Nobody && s.gate == Nobody && s.depth == Hold(s.arena)
    ensures n <= 9 && Leads(s, s', t, n)
    ensures s.arena.owner in {Free, o} || (s.arena.owner == LogIndex && !s.arena.building) ==>
      s'.arena.owner == o && (WritesScratch(o) ==> s'.arena.contentOwner == o)
    ensures s.arena.owner !in {Free, o} && (s.arena.owner == LogIndex ==> s.arena.building) ==> s'.arena == s.arena
  {
    s', n := AloneClaims(s, t, o);
  }
}
