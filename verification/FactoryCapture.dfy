/** Capturing the running image as the factory backup, as a function of what the hardware does.
    Source: factory_image.c. */
module FactoryCapture {
  import opened Common
  import opened FactoryFlash
  import Arena

  const COPY_MAX_ATTEMPTS: nat := 5
  const VERIFY_BUF_SIZE: nat := 256
  const EIO := -5
  const EBUSY := -16
  const ENOSPC := -28

  /** RAM state: the backend's cached flag and the module's own fields. */
  datatype Ram = Ram(captured: bool, arena: Arena.ArenaState, chunk: bool, longOp: bool, inProgress: bool)

  predicate Clean(r: Ram) {
    r.arena.owner != Arena.Factory && !r.chunk && !r.longOp && !r.inProgress
  }

  /** `area` holds `data` from `off` on. */
  predicate Contains(area: seq<Byte>, off: nat, data: seq<Byte>) {
    data == [] || (off + |data| <= |area| && area[off..off + |data|] == data)
  }

  // ---- The sequence ----

  /** Re-reading what was written, in pieces of the verify buffer, from offset `v` of it on. */
  function Verified(o: Oracle, w: World, area: seq<Byte>, off: nat, expected: seq<Byte>, v: nat): (r: (int, World))
    ensures r.1 == w.(ops := r.1.ops)
    decreases |expected| - v
  {
    if v >= |expected| then (0, w)
    else
      var step := Min(VERIFY_BUF_SIZE, |expected| - v);
      var rc := ReadRc(o, w, |area|, off + v, step);
      if rc != 0 then (rc, Skip(w))
      else if area[off + v..off + v + step] != expected[v..v + step] then (EIO, Skip(w))
      else Verified(o, Skip(w), area, off, expected, v + VERIFY_BUF_SIZE)
  }

  /** Read a chunk of slot0, write it to the backup and read it back. */
  function Attempt(o: Oracle, w: World, off: nat, len: nat): (r: (int, World))
    requires off + len <= |w.flash.slot0|
    ensures r.1.flash == w.flash.(backup := r.1.flash.backup) && |r.1.flash.backup| == |w.flash.backup|
  {
    var rc := ReadRc(o, w, |w.flash.slot0|, off, len);
    if rc != 0 then (rc, Skip(w))
    else
      var written := BackupChanged(o, Skip(w), off, len);
      if Rc(o, Skip(w)) != 0 then (Rc(o, Skip(w)), written)
      else Verified(o, written, written.flash.backup, off, w.flash.slot0[off..off + len], 0)
  }

  /** Again on any error or mismatch, up to the given number of tries. */
  function ChunkCopied(o: Oracle, w: World, off: nat, len: nat, tries: nat): (r: (int, World))
    requires off + len <= |w.flash.slot0|
    ensures r.1.flash == w.flash.(backup := r.1.flash.backup) && |r.1.flash.backup| == |w.flash.backup|
    decreases tries
  {
    var r := Attempt(o, w, off, len);
    if r.0 == 0 || tries <= 1 then r else ChunkCopied(o, r.1, off, len, tries - 1)
  }

  /** Chunk after chunk, up to the end of slot0 or one that fails. */
  function AllCopied(o: Oracle, w: World, chunk: nat, off: nat, tries: nat): (r: (int, World))
    requires chunk > 0
    ensures r.1.flash == w.flash.(backup := r.1.flash.backup) && |r.1.flash.backup| == |w.flash.backup|
    decreases |w.flash.slot0| - off
  {
    if off >= |w.flash.slot0| then (0, w)
    else
      var r := ChunkCopied(o, w, off, Min(chunk, |w.flash.slot0| - off), tries);
      if r.0 != 0 then r else AllCopied(o, r.1, chunk, off + chunk, tries)
  }

  lemma AllCopiedStep(o: Oracle, w: World, chunk: nat, off: nat, tries: nat, r: (int, World))
    requires chunk > 0 && off < |w.flash.slot0| && r == ChunkCopied(o, w, off, Min(chunk, |w.flash.slot0| - off), tries)
    ensures AllCopied(o, w, chunk, off, tries) == if r.0 != 0 then r else AllCopied(o, r.1, chunk, off + chunk, tries)
  {}

  lemma AllCopiedDone(o: Oracle, w: World, chunk: nat, off: nat, tries: nat)
    requires chunk > 0 && off >= |w.flash.slot0|
    ensures AllCopied(o, w, chunk, off, tries) == (0, w)
  {}

  /** Size check, erase, verified copy, flush, then the flag. */
  function Blessed(o: Oracle, w: World, chunk: nat, tries: nat): (int, World)
    requires chunk > 0
  {
    if |w.flash.slot0| > |w.flash.backup| then (ENOSPC, w)
    else if Rc(o, w) != 0 then (Rc(o, w), Erased(o, w))
    else
      var copied := AllCopied(o, Erased(o, w), chunk, 0, tries);
      if copied.0 != 0 then copied
      else if Rc(o, copied.1) != 0 then (Rc(o, copied.1), Skip(copied.1))
      else (Rc(o, Skip(copied.1)), FlagSaved(o, Skip(copied.1), true))
  }

  /** do_capture: the claim, then opening the areas, then the sequence. */
  function Captured(o: Oracle, w: World, ram: Ram, chunk: nat, tries: nat): (int, World)
    requires chunk > 0
  {
    if !Arena.Grants(ram.arena, Arena.Factory) then (EBUSY, w)
    else if Rc(o, w) != 0 then (Rc(o, w), Skip(w))
    else Blessed(o, Skip(w), chunk, tries)
  }

  /** The first-boot capture: nothing to do once the cached flag is set. */
  function CapturedOnce(o: Oracle, w: World, ram: Ram, chunk: nat, tries: nat): (int, World)
    requires chunk > 0
  {
    if ram.captured then (0, w) else Captured(o, w, ram, chunk, tries)
  }

  // ---- Success means equality ----

  /** A verified piece extends a verified prefix. */
  lemma ContainsMore(area: seq<Byte>, off: nat, data: seq<Byte>, v: nat, step: nat)
    requires v + step <= |data| && off + v + step <= |area|
    requires Contains(area, off, data[..v])
    requires area[off + v..off + v + step] == data[v..v + step]
    ensures Contains(area, off, data[..v + step])
  {
    if v > 0 {
      assert area[off..off + v + step] == area[off..off + v] + area[off + v..off + v + step];
    }
    assert data[..v + step] == data[..v] + data[v..v + step];
  }

  lemma {:induction false} VerifiedContains(o: Oracle, w: World, area: seq<Byte>, off: nat, expected: seq<Byte>, v: nat)
    requires Contains(area, off, expected[..Min(v, |expected|)])
    ensures Verified(o, w, area, off, expected, v).0 == 0 ==> Contains(area, off, expected)
    decreases |expected| - v
  {
    if v >= |expected| {
      assert expected[..|expected|] == expected;
    } else {
      var step := Min(VERIFY_BUF_SIZE, |expected| - v);
      if ReadRc(o, w, |area|, off + v, step) == 0 && area[off + v..off + v + step] == expected[v..v + step] {
        ContainsMore(area, off, expected, v, step);
        VerifiedContains(o, Skip(w), area, off, expected, v + VERIFY_BUF_SIZE);
      }
    }
  }

  /** What a copy has done to a chunk of the backup. */
  ghost predicate ChunkDone(w: World, off: nat, len: nat, r: (int, World))
    requires off + len <= |w.flash.slot0|
  {
    && SameOutside(w.flash.backup, r.1.flash.backup, off, len)
    && (r.0 == 0 ==> Contains(r.1.flash.backup, off, w.flash.slot0[off..off + len]))
  }

  lemma AttemptDone(o: Oracle, w: World, off: nat, len: nat)
    requires off + len <= |w.flash.slot0|
    ensures ChunkDone(w, off, len, Attempt(o, w, off, len))
  {
    if ReadRc(o, w, |w.flash.slot0|, off, len) == 0 && Rc(o, Skip(w)) == 0 {
      var written := BackupChanged(o, Skip(w), off, len);
      VerifiedContains(o, written, written.flash.backup, off, w.flash.slot0[off..off + len], 0);
    }
  }

  lemma {:induction false} ChunkIsDone(o: Oracle, w: World, off: nat, len: nat, tries: nat)
    requires off + len <= |w.flash.slot0|
    ensures ChunkDone(w, off, len, ChunkCopied(o, w, off, len, tries))
    decreases tries
  {
    AttemptDone(o, w, off, len);
    var r := Attempt(o, w, off, len);
    if r.0 != 0 && tries > 1 { ChunkIsDone(o, r.1, off, len, tries - 1); }
  }

  /** A verified chunk extends a copied prefix. */
  lemma PrefixGrows(before: seq<Byte>, after: seq<Byte>, source: seq<Byte>, off: nat, len: nat)
    requires off + len <= |source| && off + len <= |before| == |after|
    requires SameOutside(before, after, off, len)
    requires before[..off] == source[..off]
    requires Contains(after, off, source[off..off + len])
    ensures after[..off + len] == source[..off + len]
  {
    assert after[..off] == before[..off];
    if len > 0 {
      assert after[..off + len] == after[..off] + after[off..off + len];
    }
    assert source[..off + len] == source[..off] + source[off..off + len];
  }

  /** Although writes may lie, a copy that succeeds leaves the backup beginning with slot0. */
  lemma {:induction false} AllIsCopied(o: Oracle, w: World, chunk: nat, off: nat, tries: nat, all: (int, World))
    requires chunk > 0 && |w.flash.slot0| <= |w.flash.backup| && all == AllCopied(o, w, chunk, off, tries)
    requires w.flash.backup[..Min(off, |w.flash.slot0|)] == w.flash.slot0[..Min(off, |w.flash.slot0|)]
    ensures all.0 == 0 ==> Holds(all.1.flash)
    decreases |w.flash.slot0| - off
  {
    if off >= |w.flash.slot0| {
      assert w.flash.slot0[..|w.flash.slot0|] == w.flash.slot0;
    } else {
      var len := Min(chunk, |w.flash.slot0| - off);
      var r := NextChunk(o, w, chunk, off, tries);
      ChunkExtends(w, off, len, r);
      if r.0 == 0 { AllIsCopied(o, r.1, chunk, off + chunk, tries, all); }
    }
  }

  /** The next chunk: done, guarded, and what the rest of the copy starts from. */
  lemma NextChunk(o: Oracle, w: World, chunk: nat, off: nat, tries: nat) returns (r: (int, World))
    requires chunk > 0 && off < |w.flash.slot0|
    ensures r.1.flash == w.flash.(backup := r.1.flash.backup) && |r.1.flash.backup| == |w.flash.backup|
    ensures ChunkDone(w, off, Min(chunk, |w.flash.slot0| - off), r) && KeepsGuard(w, r.1)
    ensures AllCopied(o, w, chunk, off, tries) == if r.0 != 0 then r else AllCopied(o, r.1, chunk, off + chunk, tries)
  {
    var len := Min(chunk, |w.flash.slot0| - off);
    ChunkIsDone(o, w, off, len, tries);
    ChunkIsGuarded(o, w, off, len, tries);
    r := ChunkCopied(o, w, off, len, tries);
  }

  lemma ChunkExtends(w: World, off: nat, len: nat, r: (int, World))
    requires len > 0 && off + len <= |w.flash.slot0| <= |w.flash.backup| && ChunkDone(w, off, len, r)
    requires w.flash.backup[..off] == w.flash.slot0[..off]
    ensures r.0 == 0 ==> r.1.flash.backup[..off + len] == w.flash.slot0[..off + len]
  {
    if r.0 == 0 { PrefixGrows(w.flash.backup, r.1.flash.backup, w.flash.slot0, off, len); }
  }

  /** The stored flag is what the last operation, its save, kept. */
  predicate FlagKept(o: Oracle, w: World, u: World) {
    u.ops > 0 && u.flash.captured == KeptFlag(o(u.ops - 1).kept, w.flash.captured, true)
  }

  lemma BlessedHolds(o: Oracle, w: World, chunk: nat, tries: nat)
    requires chunk > 0
    ensures var r := Blessed(o, w, chunk, tries);
      && r.1.flash == w.flash.(backup := r.1.flash.backup, captured := r.1.flash.captured)
      && (r.0 == 0 ==> Holds(r.1.flash) && FlagKept(o, w, r.1))
  {
    if |w.flash.slot0| <= |w.flash.backup| && Rc(o, w) == 0 {
      AllIsCopied(o, Erased(o, w), chunk, 0, tries, AllCopied(o, Erased(o, w), chunk, 0, tries));
    }
  }

  /** A capture that returns 0 leaves the backup equal to slot0, although every write may report
      success and store anything. The flag is not read back: it is set exactly if its save kept
      it. */
  lemma CaptureHolds(o: Oracle, w: World, ram: Ram, chunk: nat, tries: nat)
    requires chunk > 0
    ensures var r := Captured(o, w, ram, chunk, tries);
      && r.1.flash == w.flash.(backup := r.1.flash.backup, captured := r.1.flash.captured)
      && (r.0 == 0 ==> Holds(r.1.flash) && FlagKept(o, w, r.1))
  {
    BlessedHolds(o, Skip(w), chunk, tries);
  }

  // ---- Working hardware ----

  /** Every operation succeeds, and a write stores the bytes of slot0 that it was asked to. */
  ghost predicate Works(o: Oracle, w: World) {
    && |w.flash.slot0| <= |w.flash.backup|
    && forall n: nat :: o(n).rc == 0 && o(n).kept == AsAsked && Stores(o(n).final, w.flash)
  }

  predicate Stores(bytes: seq<Byte>, f: Flash) {
    |bytes| == |f.backup| && |f.slot0| <= |bytes| && bytes[..|f.slot0|] == f.slot0
  }

  lemma PieceOf(area: seq<Byte>, off: nat, data: seq<Byte>, v: nat, step: nat)
    requires v + step <= |data| && off + |data| <= |area| && area[off..off + |data|] == data
    ensures area[off + v..off + v + step] == data[v..v + step]
  {
    var whole, piece := area[off..off + |data|], area[off + v..off + v + step];
    forall i | 0 <= i < step ensures piece[i] == data[v..v + step][i] {
      assert piece[i] == area[off + (v + i)] == whole[v + i];
    }
  }

  lemma {:induction false} VerifiedWorks(o: Oracle, w: World, area: seq<Byte>, off: nat, expected: seq<Byte>, v: nat)
    requires (forall n: nat :: o(n).rc == 0) && off + |expected| <= |area|
    requires area[off..off + |expected|] == expected
    ensures Verified(o, w, area, off, expected, v).0 == 0
    decreases |expected| - v
  {
    if v < |expected| {
      var step := Min(VERIFY_BUF_SIZE, |expected| - v);
      PieceOf(area, off, expected, v, step);
      VerifiedWorks(o, Skip(w), area, off, expected, v + VERIFY_BUF_SIZE);
    }
  }

  lemma AttemptWorks(o: Oracle, w: World, off: nat, len: nat)
    requires off + len <= |w.flash.slot0| && Works(o, w)
    ensures Attempt(o, w, off, len).0 == 0
  {
    var op := o(w.ops + 1);
    assert Stores(op.final, w.flash);
    var after := Overlay(w.flash.backup, op.final, off, len);
    forall i | off <= i < off + len ensures after[i] == w.flash.slot0[i] {
      assert after[i] == op.final[i] == op.final[..|w.flash.slot0|][i];
    }
    assert after[off..off + len] == w.flash.slot0[off..off + len];
    VerifiedWorks(o, BackupChanged(o, Skip(w), off, len), after, off, w.flash.slot0[off..off + len], 0);
  }

  lemma {:induction false} AllWorks(o: Oracle, w: World, chunk: nat, off: nat, tries: nat, all: (int, World))
    requires chunk > 0 && Works(o, w) && all == AllCopied(o, w, chunk, off, tries)
    ensures all.0 == 0
    decreases |w.flash.slot0| - off
  {
    if off >= |w.flash.slot0| {
      AllCopiedDone(o, w, chunk, off, tries);
    } else {
      var u := ChunkWorks(o, w, chunk, off, tries);
      AllWorks(o, u, chunk, off + chunk, tries, all);
    }
  }

  lemma ChunkWorks(o: Oracle, w: World, chunk: nat, off: nat, tries: nat) returns (u: World)
    requires chunk > 0 && off < |w.flash.slot0| && Works(o, w)
    ensures Works(o, u) && u.flash.slot0 == w.flash.slot0
    ensures AllCopied(o, w, chunk, off, tries) == AllCopied(o, u, chunk, off + chunk, tries)
  {
    var len := Min(chunk, |w.flash.slot0| - off);
    var r := ChunkCopied(o, w, off, len, tries);
    AttemptWorks(o, w, off, len);
    AllCopiedStep(o, w, chunk, off, tries, r);
    u := r.1;
    StillWorks(o, w, u);
  }

  lemma StillWorks(o: Oracle, w: World, u: World)
    requires Works(o, w) && u.flash.slot0 == w.flash.slot0 && |u.flash.backup| == |w.flash.backup|
    ensures Works(o, u)
  {
    forall n: nat ensures Stores(o(n).final, u.flash) {
      assert Stores(o(n).final, w.flash);
    }
  }

  /** On working hardware a capture that is granted the free arena returns 0, and the backup holds
      slot0 under a set flag. */
  lemma WorkingCaptureSucceeds(o: Oracle, w: World, ram: Ram, chunk: nat, tries: nat)
    requires chunk > 0 && Works(o, w) && ram.arena.owner == Arena.Free
    ensures var r := Captured(o, w, ram, chunk, tries);
      r.0 == 0 && Holds(r.1.flash) && r.1.flash.captured && r.1.flash.slot0 == w.flash.slot0
  {
    CaptureHolds(o, w, ram, chunk, tries);
    StillWorks(o, w, Erased(o, Skip(w)));
    AllWorks(o, Erased(o, Skip(w)), chunk, 0, tries, AllCopied(o, Erased(o, Skip(w)), chunk, 0, tries));
    assert o(w.ops).rc == 0;
  }

  /** Settings writes that fail leave the flag as it was. */
  ghost predicate FailuresChangeNothing(o: Oracle) { forall n :: o(n).rc != 0 ==> o(n).kept == AsBefore }

  /** Then a capture from a clear flag sets it only if it returns 0. */
  lemma FlagOnlyOnSuccess(o: Oracle, w: World, ram: Ram, chunk: nat, tries: nat)
    requires chunk > 0 && FailuresChangeNothing(o) && !w.flash.captured
    ensures var r := Captured(o, w, ram, chunk, tries); r.1.flash.captured ==> r.0 == 0
  {}

  // ---- Every step guarded ----

  /** The part of a run up to here is valid, and guarded if it was and the flag was clear. */
  ghost predicate KeepsGuard(w: World, u: World) {
    w.Valid() ==> u.Valid() && (GuardedRun(w.log) && !w.flash.captured ==> GuardedRun(u.log))
  }

  lemma AttemptIsGuarded(o: Oracle, w: World, off: nat, len: nat)
    requires off + len <= |w.flash.slot0|
    ensures KeepsGuard(w, Attempt(o, w, off, len).1)
  {
    if w.Valid() { BackupChangeIsGuarded(o, Skip(w), off, len); }
  }

  lemma {:induction false} ChunkIsGuarded(o: Oracle, w: World, off: nat, len: nat, tries: nat)
    requires off + len <= |w.flash.slot0|
    ensures KeepsGuard(w, ChunkCopied(o, w, off, len, tries).1)
    decreases tries
  {
    AttemptIsGuarded(o, w, off, len);
    var r := Attempt(o, w, off, len);
    if r.0 != 0 && tries > 1 { ChunkIsGuarded(o, r.1, off, len, tries - 1); }
  }

  lemma {:induction false} AllIsGuarded(o: Oracle, w: World, chunk: nat, off: nat, tries: nat, all: (int, World))
    requires chunk > 0 && all == AllCopied(o, w, chunk, off, tries)
    ensures KeepsGuard(w, all.1)
    decreases |w.flash.slot0| - off
  {
    if off < |w.flash.slot0| {
      var r := NextChunk(o, w, chunk, off, tries);
      if r.0 == 0 { AllIsGuarded(o, r.1, chunk, off + chunk, tries, all); }
    }
  }

  lemma BlessedIsGuarded(o: Oracle, w: World, chunk: nat, tries: nat)
    requires chunk > 0
    ensures KeepsGuard(w, Blessed(o, w, chunk, tries).1)
  {
    if w.Valid() && |w.flash.slot0| <= |w.flash.backup| {
      BackupChangeIsGuarded(o, w, 0, |w.flash.backup|);
      var erased := Erased(o, w);
      if Rc(o, w) == 0 {
        var copied := AllCopied(o, erased, chunk, 0, tries);
        AllIsGuarded(o, erased, chunk, 0, tries, copied);
        AllIsCopied(o, erased, chunk, 0, tries, copied);
        if copied.0 == 0 && Rc(o, copied.1) == 0 { FlagIsGuarded(o, Skip(copied.1)); }
      }
    }
  }

  lemma {:induction false} ChunkLogGrows(o: Oracle, w: World, off: nat, len: nat, tries: nat)
    requires off + len <= |w.flash.slot0|
    ensures w.log <= ChunkCopied(o, w, off, len, tries).1.log
    decreases tries
  {
    var r := Attempt(o, w, off, len);
    assert w.log <= r.1.log;
    if r.0 != 0 && tries > 1 { ChunkLogGrows(o, r.1, off, len, tries - 1); }
  }

  lemma {:induction false} AllLogGrows(o: Oracle, w: World, chunk: nat, off: nat, tries: nat, all: (int, World))
    requires chunk > 0 && all == AllCopied(o, w, chunk, off, tries)
    ensures w.log <= all.1.log
    decreases |w.flash.slot0| - off
  {
    if off < |w.flash.slot0| {
      ChunkLogGrows(o, w, off, Min(chunk, |w.flash.slot0| - off), tries);
      var r := ChunkCopied(o, w, off, Min(chunk, |w.flash.slot0| - off), tries);
      if r.0 == 0 { AllLogGrows(o, r.1, chunk, off + chunk, tries, all); }
    }
  }

  /** A capture only adds to the states the flash has passed through. */
  lemma LogGrows(o: Oracle, w: World, ram: Ram, chunk: nat, tries: nat)
    requires chunk > 0
    ensures w.log <= Captured(o, w, ram, chunk, tries).1.log
  {
    var erased := Erased(o, Skip(w));
    AllLogGrows(o, erased, chunk, 0, tries, AllCopied(o, erased, chunk, 0, tries));
  }

  /** Where a capture cannot break the promise of the flag: it is clear, the claim is denied, the
      size check refuses, or there is no backup to damage. */
  predicate CaptureIsSafe(w: World, ram: Ram) {
    || !w.flash.captured
    || !Arena.Grants(ram.arena, Arena.Factory)
    || |w.flash.slot0| > |w.flash.backup|
    || w.flash.backup == []
  }

  lemma SafeCaptureIsGuarded(o: Oracle, w: World, ram: Ram, chunk: nat, tries: nat)
    requires chunk > 0 && w.Valid() && GuardedRun(w.log) && CaptureIsSafe(w, ram)
    ensures Captured(o, w, ram, chunk, tries).1.Valid() && GuardedRun(Captured(o, w, ram, chunk, tries).1.log)
  {
    if Arena.Grants(ram.arena, Arena.Factory) && Rc(o, w) == 0 {
      if w.flash.captured && |w.flash.slot0| <= |w.flash.backup| {
        NothingToDamage(o, Skip(w), chunk, tries);
      } else {
        BlessedIsGuarded(o, Skip(w), chunk, tries);
      }
    }
  }

  /** An empty backup is only erased and blessed again. */
  lemma NothingToDamage(o: Oracle, w: World, chunk: nat, tries: nat)
    requires chunk > 0 && w.Valid() && GuardedRun(w.log)
    requires w.flash.backup == [] && w.flash.slot0 == [] && w.flash.captured
    ensures Blessed(o, w, chunk, tries).1.Valid() && GuardedRun(Blessed(o, w, chunk, tries).1.log)
  {
    var erased := Erased(o, w);
    BackupChangeIsGuarded(o, w, 0, 0);
    GuardedSelf(w.flash, w.flash);
    assert erased.flash == w.flash && erased.log == w.log + [w.flash, w.flash];
    GuardedTwo(w, w.flash, w.flash);
    FlagIsGuarded(o, Skip(erased));
  }

  function Flipped(b: seq<Byte>): (c: seq<Byte>)
    ensures |c| == |b|
    ensures forall i :: 0 <= i < |b| ==> c[i] != b[i]
  {
    seq(|b|, i requires 0 <= i < |b| => if b[i] == 0 then 255 else 0)
  }

  /** Hardware that opens the areas and then fails the erase part way. */
  function FailedErase(w: World): Oracle {
    n => Op(if n == w.ops then 0 else EIO, Flipped(w.flash.backup), Flipped(w.flash.backup), AsBefore)
  }

  /** A capture from a set flag that ends with the flag still set over a backup of which no byte is
      left: the forced capture, and the first-boot capture with a cached flag behind the stored
      one. */
  lemma CaptureCanDamage(w: World, ram: Ram, chunk: nat, tries: nat)
    requires chunk > 0 && w.Valid() && !CaptureIsSafe(w, ram)
    ensures var r := Captured(FailedErase(w), w, ram, chunk, tries);
      && r.0 == EIO && r.1.flash.captured
      && |r.1.flash.backup| == |w.flash.backup|
      && (forall i :: 0 <= i < |w.flash.backup| ==> r.1.flash.backup[i] != w.flash.backup[i])
      && !GuardedRun(r.1.log)
  {
    var o := FailedErase(w);
    var r := Captured(o, w, ram, chunk, tries);
    assert r == (EIO, Erased(o, Skip(w)));
    var n := |w.log|;
    assert r.1.log[n - 1] == w.flash && r.1.log[n] == w.flash.(backup := Flipped(w.flash.backup));
    assert r.1.log[n].backup[0] != w.flash.backup[0];
    assert !Guarded(r.1.log[n - 1], r.1.log[n]);
  }

  /** Every run of a capture, whatever the hardware does, stays guarded at every step exactly when
      the stored flag is clear, the claim is denied, the size check refuses, or there is no
      backup. */
  lemma CaptureIsGuardedIff(w: World, ram: Ram, chunk: nat, tries: nat)
    requires chunk > 0 && w.Valid() && GuardedRun(w.log)
    ensures (forall o: Oracle :: GuardedRun(Captured(o, w, ram, chunk, tries).1.log)) <==> CaptureIsSafe(w, ram)
  {
    if CaptureIsSafe(w, ram) {
      forall o: Oracle ensures GuardedRun(Captured(o, w, ram, chunk, tries).1.log) {
        SafeCaptureIsGuarded(o, w, ram, chunk, tries);
      }
    } else {
      CaptureCanDamage(w, ram, chunk, tries);
    }
  }

  /** The first-boot capture is guarded on every run exactly when, besides, the cached flag is set. */
  lemma CaptureOnceIsGuardedIff(w: World, ram: Ram, chunk: nat, tries: nat)
    requires chunk > 0 && w.Valid() && GuardedRun(w.log)
    ensures (forall o: Oracle :: GuardedRun(CapturedOnce(o, w, ram, chunk, tries).1.log)) <==>
      ram.captured || CaptureIsSafe(w, ram)
  {
    if ram.captured || CaptureIsSafe(w, ram) {
      forall o: Oracle ensures GuardedRun(CapturedOnce(o, w, ram, chunk, tries).1.log) {
        if !ram.captured { SafeCaptureIsGuarded(o, w, ram, chunk, tries); }
      }
    } else {
      CaptureCanDamage(w, ram, chunk, tries);
      assert CapturedOnce(FailedErase(w), w, ram, chunk, tries) == Captured(FailedErase(w), w, ram, chunk, tries);
    }
  }
}
