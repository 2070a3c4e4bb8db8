/** The shared maintenance scratch region: who may hold it, and the hold it keeps
    on the periodic error-histogram save.
    Sources: maintenance_arena.c, error_histogram.c. */
module Arena {

  datatype Owner = Free | Ota | Factory | LogIndex | LogStream | Flash | Autotune

  const GENERATION_RANGE: nat := 0x1_0000_0000

  const OP_ERR_FLASH: nat := 7

  predicate WritesScratch(o: Owner) {
    o == Ota || o == Factory || o == LogIndex || o == Autotune
  }

  /** The module-static `arena_state`; `generation` is a 32-bit counter. */
  datatype ArenaState = ArenaState(owner: Owner, contentOwner: Owner, generation: nat, building: bool)

  const INITIAL := ArenaState(Free, Free, 0, false)

  predicate Grants(a: ArenaState, o: Owner) {
    || a.owner == Free
    || a.owner == o
    || (a.owner == LogIndex && o != LogIndex && !a.building)
  }

  predicate TakesContents(a: ArenaState, o: Owner) {
    WritesScratch(o) && o != a.contentOwner
  }

  /** The arena after a call to claim, granted or not. */
  function AfterClaim(a: ArenaState, o: Owner): ArenaState {
    if o == Free || !Grants(a, o) then a
    else if TakesContents(a, o) then
      a.(owner := o, contentOwner := o, generation := (a.generation + 1) % GENERATION_RANGE)
    else a.(owner := o)
  }

  function AfterRelease(a: ArenaState, o: Owner): ArenaState {
    if a.owner == o then a.(owner := Free) else a
  }

  /** The one hold that ownership keeps on the periodic save. */
  function Hold(a: ArenaState): nat {
    if a.owner == Free then 0 else 1
  }

  /** error_histogram.c: occurrence counters and the gated periodic save. */
  class ErrorHistogram {
    var counts: seq<nat>
    var dirty: bool
    var pauseDepth: nat
    var stored: seq<nat>

    constructor (codes: nat)
      ensures counts == seq(codes, _ => 0) && !dirty && pauseDepth == 0 && stored == []
    {
      counts := seq(codes, _ => 0);
      dirty, pauseDepth, stored := false, 0, [];
    }

    /** A published error event; codes past the end are ignored. */
    method Observe(code: nat)
      modifies this`counts, this`dirty
      ensures code < |old(counts)| ==> dirty && counts == old(counts)[code := old(counts)[code] + 1]
      ensures code >= |old(counts)| ==> dirty == old(dirty) && counts == old(counts)
    {
      if code < |counts| {
        counts := counts[code := counts[code] + 1];
        dirty := true;
      }
    }

    method Pause()
      modifies this`pauseDepth
      ensures pauseDepth == old(pauseDepth) + 1
    {
      pauseDepth := pauseDepth + 1;
    }

    /** A resume without a matching pause is logged and changes nothing. */
    method Resume()
      modifies this`pauseDepth
      ensures pauseDepth == if old(pauseDepth) > 0 then old(pauseDepth) - 1 else 0
    {
      if pauseDepth > 0 {
        pauseDepth := pauseDepth - 1;
      }
    }

    /** One run of the periodic save worker. `storageOk` is the result of the NVS write; a failed
        write is itself published as an error, which `published` says reached the listener. */
    method SaveWork(storageOk: bool, published: bool)
      modifies this`counts, this`dirty, this`stored
      ensures pauseDepth > 0 || !old(dirty) ==> counts == old(counts) && dirty == old(dirty) && stored == old(stored)
      ensures pauseDepth == 0 && old(dirty) && storageOk ==>
        !dirty && stored == Saturated(counts) && counts == old(counts)
      ensures pauseDepth == 0 && old(dirty) && !storageOk ==>
        && dirty && stored == old(stored)
        && counts == if published && OP_ERR_FLASH < |old(counts)|
           then old(counts)[OP_ERR_FLASH := old(counts)[OP_ERR_FLASH] + 1] else old(counts)
    {
      if pauseDepth == 0 && dirty {
        if storageOk {
          stored := Saturated(counts);
          dirty := false;
        } else if published {
          Observe(OP_ERR_FLASH);
        }
      }
    }
  }

  /** Counters are persisted as 16-bit values. */
  function Saturated(counts: seq<nat>): (r: seq<nat>)
    ensures |r| == |counts|
    ensures forall i :: 0 <= i < |r| ==> r[i] <= 0xFFFF && (r[i] == counts[i] || r[i] == 0xFFFF < counts[i])
  {
    seq(|counts|, i requires 0 <= i < |counts| => if counts[i] > 0xFFFF then 0xFFFF else counts[i])
  }

  /** maintenance_arena.c, one call at a time. */
  class MaintenanceArena {
    var state: ArenaState
    const histogram: ErrorHistogram

    /** What every call keeps: the save is paused exactly while the arena is owned. */
    ghost predicate Valid()
      reads this, histogram
    {
      histogram.pauseDepth == Hold(state)
    }

    constructor (h: ErrorHistogram)
      requires h.pauseDepth == 0
      ensures Valid() && histogram == h && state == INITIAL
    {
      state, histogram := INITIAL, h;
    }

    method Claim(o: Owner) returns (granted: bool)
      requires Valid()
      modifies this, histogram`pauseDepth
      ensures Valid()
      ensures state == AfterClaim(old(state), o)
      ensures old(state.owner) == Free || old(state.owner) == o ==> (granted <==> o != Free)
      ensures old(state.owner) == LogIndex && o !in {Free, LogIndex} ==> (granted <==> !old(state.building))
      ensures old(state.owner) !in {Free, LogIndex, o} ==> !granted
      ensures granted ==> state.owner == o
      ensures granted && o in {Ota, Factory, LogIndex, Autotune} ==> state.contentOwner == o
      ensures o in {LogStream, Flash} ==> state.contentOwner == old(state).contentOwner
      ensures !granted ==> state == old(state)
      ensures state.generation == if state.contentOwner == old(state.contentOwner)
        then old(state.generation) else (old(state.generation) + 1) % 0x1_0000_0000
    {
      granted := false;
      if o != Free {
        var freeOrSame := state.owner == Free || state.owner == o;
        var evictable := state.owner == LogIndex && o != LogIndex && !state.building;
        if freeOrSame || evictable {
          if state.owner == Free {
            histogram.Pause();
          }
          if WritesScratch(o) && o != state.contentOwner {
            state := state.(generation := (state.generation + 1) % GENERATION_RANGE);
            state := state.(contentOwner := o);
          }
          state := state.(owner := o);
          granted := true;
        }
      }
    }

    method Release(o: Owner)
      requires Valid()
      modifies this, histogram`pauseDepth
      ensures Valid()
      ensures state == AfterRelease(old(state), o)
      ensures old(state).owner != o ==> state == old(state)
      ensures o != Free ==> state.owner != o
    {
      if state.owner == o {
        state := state.(owner := Free);
        histogram.Resume();
      }
    }

    method SetIndexBuilding(building: bool)
      requires Valid()
      modifies this`state
      ensures Valid() && state == old(state).(building := building)
    {
      state := state.(building := building);
    }
  }
}
