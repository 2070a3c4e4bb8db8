/** The flash seen by the factory image code: operations that may fail, and writes that may
    report success and still store the wrong bytes. Reads that succeed are faithful.
    Sources: factory_image_backend_flash.c, external_flash.c. */
module FactoryFlash {
  import opened Common

  /** What survives a reset: the running image, its factory backup, the update slot and the
      stored "factory/captured" flag. */
  datatype Flash = Flash(slot0: seq<Byte>, backup: seq<Byte>, slot1: seq<Byte>, captured: bool)

  /** The backup begins with the whole of slot0. */
  predicate Holds(f: Flash) {
    |f.slot0| <= |f.backup| && f.backup[..|f.slot0|] == f.slot0
  }

  predicate SameSizes(a: Flash, b: Flash) {
    |a.slot0| == |b.slot0| && |a.backup| == |b.backup| && |a.slot1| == |b.slot1|
  }

  // ---- What the hardware does ----

  /** What a settings write leaves under the flag's key, whatever it reports. */
  datatype Kept = AsAsked | AsBefore | Instead(value: bool)

  /** One operation: its result, the bytes in the range part way through and at the end, and what
      a settings write keeps. */
  datatype Op = Op(rc: int, torn: seq<Byte>, final: seq<Byte>, kept: Kept)

  /** The outcome of every operation, in order. */
  type Oracle = nat -> Op

  /** The flash, all states it has passed through, including a torn one within each erase or
      write, and the number of operations so far. */
  datatype World = World(flash: Flash, log: seq<Flash>, ops: nat) {
    ghost predicate Valid() {
      log != [] && log[|log| - 1] == flash && forall i :: 0 <= i < |log| ==> SameSizes(log[i], flash)
    }
  }

  /** Two areas agree except in `len` bytes from `off`. */
  predicate SameOutside(a: seq<Byte>, b: seq<Byte>, off: nat, len: nat) {
    |a| == |b| && forall i :: 0 <= i < |a| && !(off <= i < off + len) ==> b[i] == a[i]
  }

  /** A range overwritten with whatever the hardware left there. */
  function Overlay(a: seq<Byte>, junk: seq<Byte>, off: nat, len: nat): (b: seq<Byte>)
    ensures SameOutside(a, b, off, len)
  {
    if |junk| != |a| then a
    else seq(|a|, i requires 0 <= i < |a| == |junk| => if off <= i < off + len then junk[i] else a[i])
  }

  function Rc(o: Oracle, w: World): int { o(w.ops).rc }

  /** An operation that leaves the flash alone. */
  function Skip(w: World): World { w.(ops := w.ops + 1) }

  function Passes(w: World, torn: Flash, final: Flash): World {
    World(final, w.log + [torn, final], w.ops + 1)
  }

  function BackupChanged(o: Oracle, w: World, off: nat, len: nat): World {
    var b := w.flash.backup;
    var torn, final := Overlay(b, o(w.ops).torn, off, len), Overlay(b, o(w.ops).final, off, len);
    Passes(w, w.flash.(backup := torn), w.flash.(backup := final))
  }

  function Slot1Changed(o: Oracle, w: World, off: nat, len: nat): World {
    var b := w.flash.slot1;
    var torn, final := Overlay(b, o(w.ops).torn, off, len), Overlay(b, o(w.ops).final, off, len);
    Passes(w, w.flash.(slot1 := torn), w.flash.(slot1 := final))
  }

  /** flash_backend_erase. */
  function Erased(o: Oracle, w: World): World { BackupChanged(o, w, 0, |w.flash.backup|) }

  /** A read fails when the hardware says so or the range does not fit. */
  function ReadRc(o: Oracle, w: World, size: nat, off: nat, len: nat): int {
    if Rc(o, w) != 0 then Rc(o, w) else if off + len <= size then 0 else -22
  }

  function KeptFlag(k: Kept, before: bool, asked: bool): bool {
    match k case AsAsked => asked case AsBefore => before case Instead(v) => v
  }

  /** ext_flash_settings_save_one on the flag: neither success nor an error says what is stored. */
  function FlagSaved(o: Oracle, w: World, v: bool): World {
    var f := w.flash.(captured := KeptFlag(o(w.ops).kept, w.flash.captured, v));
    World(f, w.log + [f], w.ops + 1)
  }

  class Device {
    const oracle: Oracle
    var world: World
    /** Offset of slot1's last erase page, which holds the boot trailer. */
    const lastPage: nat

    ghost predicate Valid()
      reads this
    {
      world.Valid() && lastPage <= |world.flash.slot1|
    }

    constructor (o: Oracle, f: Flash, lastPage: nat)
      requires lastPage <= |f.slot1|
      ensures Valid() && oracle == o && world == World(f, [f], 0) && this.lastPage == lastPage
    {
      oracle, world := o, World(f, [f], 0);
      this.lastPage := lastPage;
    }

    method Become(f: Flash)
      requires Valid() && SameSizes(world.flash, f)
      modifies this
      ensures Valid() && world == World(f, old(world).log + [f], old(world).ops)
    {
      world := World(f, world.log + [f], world.ops);
    }

    /** Power is lost at some point the flash has passed through, possibly inside an operation. */
    method PowerLoss()
      requires Valid()
      modifies this
      ensures Valid() && world.log <= old(world).log && world.ops == old(world).ops
    {
      var k: int := *;
      if k < 0 || k >= |world.log| { k := |world.log| - 1; }
      world := World(world.log[k], world.log[..k + 1], world.ops);
    }

    /** Any operation that only reports a result. */
    method Outcome() returns (rc: int)
      requires Valid()
      modifies this
      ensures Valid() && rc == Rc(oracle, old(world)) && world == Skip(old(world))
    {
      rc := Rc(oracle, world);
      world := Skip(world);
    }

    method EraseBackup() returns (rc: int)
      requires Valid()
      modifies this
      ensures Valid() && rc == Rc(oracle, old(world)) && world == Erased(oracle, old(world))
    {
      rc := Rc(oracle, world);
      world := Erased(oracle, world);
    }

    /** flash_backend_write: the range may end up holding anything, whatever the result. */
    method WriteBackup(off: nat, data: seq<Byte>) returns (rc: int)
      requires Valid()
      modifies this
      ensures Valid() && rc == Rc(oracle, old(world)) && world == BackupChanged(oracle, old(world), off, |data|)
    {
      rc := Rc(oracle, world);
      world := BackupChanged(oracle, world, off, |data|);
    }

    /** Writing or erasing a range of slot1, and also MCUboot's own write of its trailer in it. */
    method ChangeSlot1(off: nat, len: nat) returns (rc: int)
      requires Valid()
      modifies this
      ensures Valid() && rc == Rc(oracle, old(world)) && world == Slot1Changed(oracle, old(world), off, len)
    {
      rc := Rc(oracle, world);
      world := Slot1Changed(oracle, world, off, len);
    }

    method Read(area: seq<Byte>, off: nat, len: nat) returns (rc: int, buf: seq<Byte>)
      requires Valid()
      modifies this
      ensures Valid() && rc == ReadRc(oracle, old(world), |area|, off, len) && world == Skip(old(world))
      ensures |buf| == len
      ensures rc == 0 ==> off + len <= |area| && buf == area[off..off + len]
    {
      rc := ReadRc(oracle, world, |area|, off, len);
      world := Skip(world);
      buf := if rc == 0 then area[off..off + len] else seq(len, _ => 0);
    }

    method SaveFlag(v: bool) returns (rc: int)
      requires Valid()
      modifies this
      ensures Valid() && rc == Rc(oracle, old(world)) && world == FlagSaved(oracle, old(world), v)
    {
      rc := Rc(oracle, world);
      world := FlagSaved(oracle, world, v);
    }
  }

  // ---- Runs over resets and updates ----

  /** One change of the flash while the flag protects the backup: the backup only changes while
      the flag is clear, and the flag is only set over a backup that holds slot0. */
  predicate Guarded(a: Flash, b: Flash) {
    && |b.backup| == |a.backup|
    && (a.captured ==> b.backup == a.backup)
    && (!a.captured && b.captured ==> b.backup == a.backup && b.slot0 == a.slot0 && Holds(b))
  }

  ghost predicate GuardedRun(log: seq<Flash>) {
    forall i :: 0 < i < |log| ==> Guarded(log[i - 1], log[i])
  }

  /** The backup holds slot0 as it was when the flag was last set before state `i`. */
  ghost predicate HoldsCapture(log: seq<Flash>, i: nat)
    requires i < |log|
  {
    exists j ::
      && 0 < j <= i && log[j].captured && !log[j - 1].captured
      && |log[j].slot0| <= |log[i].backup| && log[i].backup[..|log[j].slot0|] == log[j].slot0
  }

  /** Whatever the crashes, reboots and updates of slot0 in between, a set flag means that the
      backup holds slot0 as it was when the flag was set. */
  lemma {:induction false} FlagMeansCaptured(log: seq<Flash>, i: nat)
    requires GuardedRun(log) && i < |log| && !log[0].captured && log[i].captured
    ensures HoldsCapture(log, i)
  {
    assert Guarded(log[i - 1], log[i]);
    if log[i - 1].captured {
      FlagMeansCaptured(log, i - 1);
    } else {
      assert Holds(log[i]);
    }
  }

  /** Two more states, each a guarded change, keep a guarded run. */
  lemma GuardedTwo(w: World, torn: Flash, final: Flash)
    requires w.Valid() && GuardedRun(w.log) && Guarded(w.flash, torn) && Guarded(torn, final)
    ensures GuardedRun(Passes(w, torn, final).log)
  {
    var log := w.log + [torn, final];
    forall i | 0 < i < |log| ensures Guarded(log[i - 1], log[i]) {
      if i < |w.log| { assert Guarded(w.log[i - 1], w.log[i]); }
    }
  }

  lemma ChangeKeepsValid(w: World, torn: Flash, final: Flash)
    requires w.Valid() && SameSizes(torn, w.flash) && SameSizes(final, w.flash)
    ensures Passes(w, torn, final).Valid()
  {}

  /** While the flag is clear the backup may change freely. */
  lemma BackupChangeIsGuarded(o: Oracle, w: World, off: nat, len: nat)
    requires w.Valid()
    ensures BackupChanged(o, w, off, len).Valid()
    ensures GuardedRun(w.log) && !w.flash.captured ==> GuardedRun(BackupChanged(o, w, off, len).log)
  {
    var b := w.flash.backup;
    var torn := w.flash.(backup := Overlay(b, o(w.ops).torn, off, len));
    var final := w.flash.(backup := Overlay(b, o(w.ops).final, off, len));
    ChangeKeepsValid(w, torn, final);
    if GuardedRun(w.log) && !w.flash.captured { GuardedTwo(w, torn, final); }
  }

  lemma Slot1ChangeIsGuarded(o: Oracle, w: World, off: nat, len: nat)
    requires w.Valid()
    ensures Slot1Changed(o, w, off, len).Valid()
    ensures GuardedRun(w.log) ==> GuardedRun(Slot1Changed(o, w, off, len).log)
  {
    var b := w.flash.slot1;
    var torn := w.flash.(slot1 := Overlay(b, o(w.ops).torn, off, len));
    var final := w.flash.(slot1 := Overlay(b, o(w.ops).final, off, len));
    ChangeKeepsValid(w, torn, final);
    if GuardedRun(w.log) {
      GuardedSelf(w.flash, torn);
      GuardedSelf(torn, final);
      GuardedTwo(w, torn, final);
    }
  }

  lemma GuardedSelf(a: Flash, b: Flash)
    requires b.backup == a.backup && b.captured == a.captured
    ensures Guarded(a, b)
  {}

  /** The flag may be set over a backup that holds slot0. */
  lemma FlagIsGuarded(o: Oracle, w: World)
    requires w.Valid() && Holds(w.flash)
    ensures FlagSaved(o, w, true).Valid()
    ensures GuardedRun(w.log) ==> GuardedRun(FlagSaved(o, w, true).log)
  {
    if GuardedRun(w.log) {
      var u := FlagSaved(o, w, true);
      forall i | 0 < i < |u.log| ensures Guarded(u.log[i - 1], u.log[i]) {
        if i < |w.log| { assert Guarded(w.log[i - 1], w.log[i]); }
      }
    }
  }

  /** An update of slot0 leaves backup and flag alone. */
  lemma UpdateIsGuarded(w: World, image: seq<Byte>)
    requires w.Valid() && GuardedRun(w.log)
    ensures GuardedRun(w.log + [w.flash.(slot0 := image)])
  {
    var log := w.log + [w.flash.(slot0 := image)];
    GuardedSelf(w.flash, w.flash.(slot0 := image));
    forall i | 0 < i < |log| ensures Guarded(log[i - 1], log[i]) {
      if i < |w.log| { assert Guarded(w.log[i - 1], w.log[i]); }
    }
  }
}
