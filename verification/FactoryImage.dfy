/** Restoring the factory backup to the update slot, the image-length parser, and captures and
    restores over a lifetime. Sources: factory_image.c, factory_image_backend_flash.c. */
module FactoryImage {
  import opened Common
  import opened FactoryFlash
  import opened FactoryCapture
  import Arena

  const STAGE_SWAP_MAX_ATTEMPTS: nat := 5
  const EBADF := -9
  const ENOENT := -2

  // ---- Image length ----

  const IMAGE_HEADER_MAGIC := 0x96f3b83d
  const IMAGE_TLV_INFO_MAGIC := 0x6907

  datatype Size = Size(bytes: nat) | BadImage

  /** Where the unprotected TLV area starts, in 32-bit arithmetic. */
  function TlvOffset(b: seq<Byte>): nat
    requires 32 <= |b|
  {
    (Le16(b, 8) + Le32(b, 12) + Le16(b, 10)) % U32
  }

  /** The length the parser computes from a backup, when every read it makes succeeds. */
  function ImageSize(b: seq<Byte>): Size {
    if |b| < 32 || Le32(b, 0) != IMAGE_HEADER_MAGIC then BadImage
    else
      var off := TlvOffset(b);
      if (off + 4) % U32 > |b| || off + 4 > |b| then BadImage
      else if Le16(b, off) != IMAGE_TLV_INFO_MAGIC then BadImage
      else
        var total := (off + Le16(b, off + 2)) % U32;
        if total == 0 || total > |b| then BadImage else Size(total)
  }

  /** A computed length is never empty and never longer than the backup. */
  lemma ImageSizeInRange(b: seq<Byte>)
    ensures ImageSize(b).Size? ==> 0 < ImageSize(b).bytes <= |b|
  {}

  /** The sum of the parts named by the header, without any wrap. */
  function TlvStart(b: seq<Byte>): nat
    requires 32 <= |b|
  {
    Le16(b, 8) + Le32(b, 12) + Le16(b, 10)
  }

  /** A backup that starts with a complete MCUboot image. */
  predicate WellFormed(b: seq<Byte>) {
    && 32 <= |b| && Le32(b, 0) == IMAGE_HEADER_MAGIC
    && TlvStart(b) + 4 <= |b| && Le16(b, TlvStart(b)) == IMAGE_TLV_INFO_MAGIC
    && 0 < TlvStart(b) + Le16(b, TlvStart(b) + 2) <= |b|
  }

  /** Unless the header's sizes overflow 32 bits, the parser accepts exactly the well-formed
      backups, and its length is header + image + protected TLVs + TLV total. */
  lemma ImageSizeIsSumOfParts(b: seq<Byte>)
    requires |b| + 0xFFFF < U32 && (32 <= |b| ==> TlvStart(b) < U32)
    ensures ImageSize(b) ==
      if WellFormed(b) then Size(TlvStart(b) + Le16(b, TlvStart(b) + 2)) else BadImage
  {
    if 32 <= |b| {
      Small(TlvStart(b));
      if TlvStart(b) + 4 <= |b| {
        Small(TlvStart(b) + 4);
        Small(TlvStart(b) + Le16(b, TlvStart(b) + 2));
      }
    }
  }

  predicate SizeIsRight(b: seq<Byte>) {
    ImageSize(b) == if WellFormed(b) then Size(TlvStart(b) + Le16(b, TlvStart(b) + 2)) else BadImage
  }

  lemma SameParts(b: seq<Byte>, header: seq<Byte>)
    requires |header| == 32 <= |b| && b[..32] == header
    ensures Le32(b, 0) == Le32(header, 0) && TlvStart(b) == TlvStart(header) && TlvOffset(b) == TlvOffset(header)
  {
    assert forall i :: 0 <= i < 32 ==> b[i] == header[i];
  }

  /** The byte at `i` as far as the header fixes it, else `free`. */
  function KnownOr(header: seq<Byte>, i: nat, free: Byte): Byte
    requires |header| == 32
  {
    if i < 32 then header[i] else free
  }

  /** The TLV start that the header's sizes wrap round to can pass for one: its four bytes lie in
      the backup, those that belong to the header itself read as the TLV magic, and the length
      they fix leaves the image within the backup. */
  predicate WrapsToTlv(header: seq<Byte>, n: nat)
    requires |header| == 32
  {
    var off := TlvOffset(header);
    && TlvStart(header) >= U32 && off + 4 <= n
    && KnownOr(header, off, 0x07) == 0x07 && KnownOr(header, off + 1, 0x69) == 0x69
    && off + KnownOr(header, off + 2, 0) + 256 * KnownOr(header, off + 3, 0) <= n
  }

  function PadByte(off: nat, i: nat): Byte { if i == off then 0x07 else if i == off + 1 then 0x69 else 0 }

  /** A header, zeros up to `off`, an empty TLV area there, and zeros up to `n`; the header wins
      where they overlap. */
  function Padded(header: seq<Byte>, off: nat, n: nat): (b: seq<Byte>)
    requires |header| == 32 <= n
    ensures |b| == n && b[..32] == header
    ensures forall i :: 0 <= i < n ==> b[i] == KnownOr(header, i, PadByte(off, i))
  {
    header + seq<Byte>(n - 32, j requires 0 <= j < n - 32 => PadByte(off, j + 32))
  }

  /** The padded backup is accepted although it is not well formed. */
  lemma WrappedImage(header: seq<Byte>, n: nat)
    requires |header| == 32 <= n && Le32(header, 0) == IMAGE_HEADER_MAGIC && n + 0xFFFF < U32 && WrapsToTlv(header, n)
    ensures !SizeIsRight(Padded(header, TlvOffset(header), n))
  {
    var off := TlvOffset(header);
    var b := Padded(header, off, n);
    SameParts(b, header);
    assert Le16(b, off) == IMAGE_TLV_INFO_MAGIC;
    assert off > 0 by { HeaderIsNotTlv(header); }
    WrappedSize(b, off, Le16(b, off + 2));
  }

  /** The header does not itself begin with the TLV magic. */
  lemma HeaderIsNotTlv(header: seq<Byte>)
    requires |header| == 32 && Le32(header, 0) == IMAGE_HEADER_MAGIC
    ensures header[0] != 0x07
  {}

  lemma WrappedSize(b: seq<Byte>, off: nat, len: nat)
    requires 32 <= |b| && Le32(b, 0) == IMAGE_HEADER_MAGIC && |b| + 0xFFFF < U32 && TlvStart(b) >= U32
    requires off == TlvOffset(b) > 0 && off + 4 <= |b| && len == Le16(b, off + 2) && off + len <= |b|
    requires Le16(b, off) == IMAGE_TLV_INFO_MAGIC
    ensures ImageSize(b) == Size(off + len) && !WellFormed(b)
  {
    Small(off + 4);
    Small(off + len);
  }

  lemma Small(x: nat)
    requires x < U32
    ensures x % U32 == x
  {}

  /** Wrapped sizes that do not lead to a TLV area are refused. */
  lemma WrappedIsRefused(b: seq<Byte>, header: seq<Byte>)
    requires |header| == 32 <= |b| && b[..32] == header && |b| + 0xFFFF < U32
    requires TlvStart(header) >= U32 && !WrapsToTlv(header, |b|)
    ensures SizeIsRight(b)
  {
    SameParts(b, header);
    var off := TlvOffset(b);
    if off + 4 <= |b| {
      Small(off + 4);
      assert forall i :: 0 <= i < 32 ==> b[i] == header[i];
      var len := Le16(b, off + 2);
      Small(off + len);
      assert KnownOr(header, off + 2, 0) as int <= b[off + 2] as int;
      assert KnownOr(header, off + 3, 0) as int <= b[off + 3] as int;
      if Le16(b, off) == IMAGE_TLV_INFO_MAGIC { TlvBytes(b, off); }
    }
  }

  lemma TlvBytes(b: seq<Byte>, off: nat)
    requires off + 2 <= |b| && Le16(b, off) == IMAGE_TLV_INFO_MAGIC
    ensures b[off] == 0x07 && b[off + 1] == 0x69
  {}

  /** For a header with the right magic, the computed length is right for every backup of `n` bytes
      that starts with it exactly when the header's sizes do not overflow 32 bits, or do not wrap
      to what can pass for a TLV area. */
  lemma SizeIsRightIff(header: seq<Byte>, n: nat)
    requires |header| == 32 <= n && Le32(header, 0) == IMAGE_HEADER_MAGIC && n + 0xFFFF < U32
    ensures (forall b: seq<Byte> :: |b| == n && b[..32] == header ==> SizeIsRight(b)) <==> !WrapsToTlv(header, n)
  {
    if WrapsToTlv(header, n) {
      WrappedImage(header, n);
    } else {
      forall b: seq<Byte> | |b| == n && b[..32] == header ensures SizeIsRight(b) {
        SameParts(b, header);
        if TlvStart(header) < U32 { ImageSizeIsSumOfParts(b); } else { WrappedIsRefused(b, header); }
      }
    }
  }

  // ---- The module ----

  /** What the restore steps keep: all but slot1, and a guarded run. */
  ghost predicate Slot1Only(w: World, u: World) {
    && u.flash == w.flash.(slot1 := u.flash.slot1)
    && |u.flash.slot1| == |w.flash.slot1|
    && w.log <= u.log && (GuardedRun(w.log) ==> GuardedRun(u.log))
  }

  lemma Slot1ChangeOnly(o: Oracle, w: World, off: nat, len: nat)
    requires w.Valid()
    ensures Slot1Only(w, Slot1Changed(o, w, off, len))
    ensures SameOutside(w.flash.slot1, Slot1Changed(o, w, off, len).flash.slot1, off, len)
  {
    Slot1ChangeIsGuarded(o, w, off, len);
  }

  // ---- Staging the swap ----

  /** Only the last page of slot1 is touched. */
  ghost predicate TrailerOnly(w: World, u: World, lastPage: nat) {
    Slot1Only(w, u) && lastPage <= |w.flash.slot1| && u.flash.slot1[..lastPage] == w.flash.slot1[..lastPage]
  }

  /** What mcuboot_swap_type returns for a pending test swap. */
  const BOOT_SWAP_TYPE_TEST := 2

  /** The try whose operations start at `k` stages the swap: the bus is acquired, the upgrade
      request succeeds and both reads of the swap type report a test swap. */
  predicate TryStages(o: Oracle, k: nat) {
    && o(k).rc == 0 && o(k + 1).rc == 0
    && o(k + 2).rc == BOOT_SWAP_TYPE_TEST && o(k + 3).rc == BOOT_SWAP_TYPE_TEST
  }

  /** The operation that follows the try. */
  function AfterTry(o: Oracle, k: nat): nat {
    if o(k).rc != 0 then k + 1 else if o(k + 1).rc != 0 then k + 2 else k + 4
  }

  /** A page lookup and, if that succeeds, an erase. */
  function AfterErase(o: Oracle, k: nat): nat {
    if o(k).rc == 0 then k + 2 else k + 1
  }

  /** Where try `i` starts, the first at `k`. */
  function TryAt(o: Oracle, k: nat, i: nat): nat {
    if i == 0 then k else AfterErase(o, AfterTry(o, TryAt(o, k, i - 1)))
  }

  /** The operation that follows the first `n` tries. */
  function TriesEnd(o: Oracle, k: nat, n: nat): nat {
    if n == 0 then k else AfterTry(o, TryAt(o, k, n - 1))
  }

  predicate StagesAt(o: Oracle, k: nat, i: nat) {
    TryStages(o, TryAt(o, k, i))
  }

  predicate SomeTryStages(o: Oracle, k: nat) {
    exists i :: 0 <= i < STAGE_SWAP_MAX_ATTEMPTS && StagesAt(o, k, i)
  }

  predicate NoneStages(o: Oracle, k: nat, n: nat) {
    forall i :: 0 <= i < n ==> !StagesAt(o, k, i)
  }

  ghost predicate StagedFrom(o: Oracle, w: World, u: World, lastPage: nat) {
    && w.ops + 4 == u.ops && TryStages(o, w.ops) && lastPage <= |w.flash.slot1|
    && u == Skip(Skip(Slot1Changed(o, Skip(w), lastPage, |w.flash.slot1| - lastPage)))
  }

  /** The last four operations were a try that staged the swap. */
  ghost predicate JustStaged(o: Oracle, u: World, lastPage: nat) {
    exists w :: StagedFrom(o, w, u, lastPage)
  }

  lemma PrefixOfPrefix(copied: seq<Byte>, staged: seq<Byte>, source: seq<Byte>, size: nat, page: nat)
    requires size <= |copied| == |staged| && size <= |source| && page <= |staged|
    requires copied[..size] == source[..size] && staged[..page] == copied[..page]
    ensures staged[..Min(size, page)] == source[..Min(size, page)]
  {
    var k := Min(size, page);
    assert staged[..k] == staged[..page][..k] == copied[..k] == copied[..size][..k] == source[..k];
  }

  lemma InfoBytes(b: seq<Byte>, off: nat, info: seq<Byte>)
    requires off + 4 <= |b| && info == b[off..off + 4]
    ensures Le16(info, 0) == Le16(b, off) && Le16(info, 2) == Le16(b, off + 2)
  {}

  /** What can happen between two resets. */
  datatype Action = Capture | ForcedCapture | Restore | Update(image: seq<Byte>)

  /** One power-up: whether the flag loads, and what is done until power is lost. */
  datatype Boot = Boot(loadOk: bool, actions: seq<Action>)

  /** A boot on the unforced path: the flag loads and no capture is forced. */
  predicate Unforced(b: Boot) { b.loadOk && ForcedCapture !in b.actions }

  class Unit {
    const dev: Device
    const chunkSize: nat
    const maxAttempts: nat
    var ram: Ram
    /** Captures that began where they are not safe. */
    ghost var hazards: nat

    ghost predicate Valid()
      reads this, dev
    {
      dev.Valid() && chunkSize > 0
    }

    constructor (dev: Device, chunkSize: nat, ram: Ram)
      requires dev.Valid() && chunkSize > 0
      ensures Valid() && this.dev == dev && this.chunkSize == chunkSize && this.ram == ram && hazards == 0
      ensures maxAttempts == COPY_MAX_ATTEMPTS
    {
      maxAttempts := COPY_MAX_ATTEMPTS;
      this.dev, this.chunkSize, this.ram := dev, chunkSize, ram;
      hazards := 0;
    }

    /** Boot: load the stored flag. A failed load leaves "not captured". */
    method LoadFlag(loadOk: bool)
      requires Valid()
      modifies this`ram
      ensures Valid()
      ensures ram == old(ram).(captured := loadOk && dev.world.flash.captured)
    {
      ram := ram.(captured := loadOk && dev.world.flash.captured);
    }

    // ---- Capture ----

    /** Re-read what was written, in pieces of the verify buffer. */
    method VerifyBackup(off: nat, expected: seq<Byte>) returns (rc: int)
      requires Valid()
      modifies dev
      ensures Valid()
      ensures (rc, dev.world) == Verified(dev.oracle, old(dev.world), old(dev.world).flash.backup, off, expected, 0)
    {
      rc := 0;
      var v := 0;
      ghost var all := Verified(dev.oracle, dev.world, dev.world.flash.backup, off, expected, 0);
      while rc == 0 && v < |expected|
        invariant Valid() && dev.world.flash == old(dev.world).flash
        invariant all == if rc != 0 then (rc, dev.world)
          else Verified(dev.oracle, dev.world, old(dev.world).flash.backup, off, expected, v)
        decreases |expected| - v, if rc == 0 then 1 else 0
      {
        var step := Min(VERIFY_BUF_SIZE, |expected| - v);
        var buf;
        rc, buf := dev.Read(dev.world.flash.backup, off + v, step);
        if rc == 0 && buf != expected[v..v + step] {
          rc := EIO;
        }
        v := v + VERIFY_BUF_SIZE;
      }
    }

    /** One chunk: read slot0, write the backup, read it back, again on any error or mismatch. */
    method CopyChunkToBackup(off: nat, len: nat) returns (rc: int)
      requires Valid() && off + len <= |dev.world.flash.slot0|
      modifies dev
      ensures Valid() && (rc, dev.world) == ChunkCopied(dev.oracle, old(dev.world), off, len, maxAttempts)
    {
      rc := AttemptChunk(off, len);
      var attempt := 1;
      ghost var all := ChunkCopied(dev.oracle, old(dev.world), off, len, maxAttempts);
      while rc != 0 && attempt < maxAttempts
        invariant Valid() && dev.world.flash.slot0 == old(dev.world).flash.slot0 && attempt >= 1
        invariant all == if rc != 0 && attempt < maxAttempts
          then ChunkCopied(dev.oracle, dev.world, off, len, maxAttempts - attempt) else (rc, dev.world)
        decreases maxAttempts - attempt
      {
        rc := AttemptChunk(off, len);
        attempt := attempt + 1;
      }
    }

    method AttemptChunk(off: nat, len: nat) returns (rc: int)
      requires Valid() && off + len <= |dev.world.flash.slot0|
      modifies dev
      ensures Valid() && (rc, dev.world) == Attempt(dev.oracle, old(dev.world), off, len)
    {
      var chunk;
      rc, chunk := dev.Read(dev.world.flash.slot0, off, len);
      if rc == 0 {
        rc := dev.WriteBackup(off, chunk);
        if rc == 0 {
          rc := VerifyBackup(off, chunk);
        }
      }
    }

    method CopySlot0ToBackup() returns (rc: int)
      requires Valid()
      modifies dev
      ensures Valid() && (rc, dev.world) == AllCopied(dev.oracle, old(dev.world), chunkSize, 0, maxAttempts)
    {
      var size := |dev.world.flash.slot0|;
      rc := 0;
      var off := 0;
      ghost var all := AllCopied(dev.oracle, old(dev.world), chunkSize, 0, maxAttempts);
      while rc == 0 && off < size
        invariant Valid() && |dev.world.flash.slot0| == size
        invariant all == if rc != 0 then (rc, dev.world)
          else AllCopied(dev.oracle, dev.world, chunkSize, off, maxAttempts)
        decreases size - off, if rc == 0 then 1 else 0
      {
        rc := CopyNextChunk(off);
        off := off + chunkSize;
      }
      if rc == 0 { AllCopiedDone(dev.oracle, dev.world, chunkSize, off, maxAttempts); }
    }

    method CopyNextChunk(off: nat) returns (rc: int)
      requires Valid() && off < |dev.world.flash.slot0|
      modifies dev
      ensures Valid() && |dev.world.flash.slot0| == |old(dev.world).flash.slot0|
      ensures AllCopied(dev.oracle, old(dev.world), chunkSize, off, maxAttempts) ==
        if rc != 0 then (rc, dev.world) else AllCopied(dev.oracle, dev.world, chunkSize, off + chunkSize, maxAttempts)
    {
      rc := CopyChunkToBackup(off, Min(chunkSize, |dev.world.flash.slot0| - off));
      AllCopiedStep(dev.oracle, old(dev.world), chunkSize, off, maxAttempts, (rc, dev.world));
    }

    /** Size check, erase, verified copy, flush, then the flag. */
    method CopyAndBless() returns (rc: int)
      requires Valid()
      modifies dev, this`ram
      ensures Valid() && (rc, dev.world) == Blessed(dev.oracle, old(dev.world), chunkSize, maxAttempts)
      ensures ram == if rc == 0 then old(ram).(captured := true) else old(ram)
    {
      if |dev.world.flash.slot0| > |dev.world.flash.backup| {
        return ENOSPC;
      }
      rc := dev.EraseBackup();
      if rc == 0 {
        rc := CopySlot0ToBackup();
        if rc == 0 {
          rc := dev.Outcome();
          if rc == 0 {
            rc := dev.SaveFlag(true);
            if rc == 0 {
              ram := ram.(captured := true);
            }
          }
        }
      }
    }

    /** do_capture: the claim, the long-operation flag and the chunk pointer around the sequence. */
    method DoCapture() returns (rc: int)
      requires Valid()
      modifies dev, this`ram, this`hazards
      ensures Valid() && (rc, dev.world) == Captured(dev.oracle, old(dev.world), old(ram), chunkSize, maxAttempts)
      ensures rc == 0 ==> Holds(dev.world.flash) && FlagKept(dev.oracle, old(dev.world), dev.world)
      ensures ram.captured == (old(ram).captured || rc == 0)
      ensures Clean(old(ram)) ==> Clean(ram)
      ensures hazards == old(hazards) + (if CaptureIsSafe(old(dev.world), old(ram)) then 0 else 1)
    {
      CaptureHolds(dev.oracle, dev.world, ram, chunkSize, maxAttempts);
      if !CaptureIsSafe(dev.world, ram) { hazards := hazards + 1; }
      var granted := Arena.Grants(ram.arena, Arena.Factory);
      ram := ram.(arena := Arena.AfterClaim(ram.arena, Arena.Factory), chunk := granted);
      if !granted {
        return EBUSY;
      }
      ram := ram.(inProgress := true, longOp := true);
      rc := dev.Outcome();
      if rc == 0 {
        rc := CopyAndBless();
      }
      ram := ram.(longOp := false, inProgress := false, chunk := false,
                  arena := Arena.AfterRelease(ram.arena, Arena.Factory));
    }

    /** The first-boot capture: a no-op once the cached flag is set. */
    method CaptureUnforced() returns (rc: int)
      requires Valid()
      modifies dev, this`ram, this`hazards
      ensures Valid() && (rc, dev.world) == CapturedOnce(dev.oracle, old(dev.world), old(ram), chunkSize, maxAttempts)
      ensures !old(ram).captured && rc == 0 ==>
        Holds(dev.world.flash) && FlagKept(dev.oracle, old(dev.world), dev.world)
      ensures ram.captured == (old(ram).captured || rc == 0)
      ensures Clean(old(ram)) ==> Clean(ram)
      ensures hazards == old(hazards) + (if old(ram).captured || CaptureIsSafe(old(dev.world), old(ram)) then 0 else 1)
    {
      rc := 0;
      if !ram.captured {
        rc := DoCapture();
      }
    }

    // ---- Restore ----

    method VerifySlot1(off: nat, expected: seq<Byte>) returns (rc: int)
      requires Valid()
      modifies dev
      ensures Valid() && dev.world == old(dev.world).(ops := dev.world.ops)
      ensures rc == 0 ==> Contains(dev.world.flash.slot1, off, expected)
    {
      rc := 0;
      var v := 0;
      while rc == 0 && v < |expected|
        invariant Valid() && dev.world == old(dev.world).(ops := dev.world.ops)
        invariant rc == 0 ==> Contains(dev.world.flash.slot1, off, expected[..Min(v, |expected|)])
        decreases |expected| - v, if rc == 0 then 1 else 0
      {
        var step := Min(VERIFY_BUF_SIZE, |expected| - v);
        var buf;
        rc, buf := dev.Read(dev.world.flash.slot1, off + v, step);
        if rc == 0 {
          if buf != expected[v..v + step] {
            rc := EIO;
          } else {
            ContainsMore(dev.world.flash.slot1, off, expected, v, step);
          }
        }
        v := v + VERIFY_BUF_SIZE;
      }
      assert expected[..|expected|] == expected;
    }

    method CopyChunkToSlot1(off: nat, len: nat) returns (rc: int)
      requires Valid() && off + len <= |dev.world.flash.backup|
      modifies dev
      ensures Valid() && Slot1Only(old(dev.world), dev.world)
      ensures SameOutside(old(dev.world).flash.slot1, dev.world.flash.slot1, off, len)
      ensures rc == 0 ==> Contains(dev.world.flash.slot1, off, dev.world.flash.backup[off..off + len])
    {
      rc := -1;
      var attempt := 0;
      while attempt == 0 || (rc != 0 && attempt < maxAttempts)
        invariant Valid() && Slot1Only(old(dev.world), dev.world)
        invariant SameOutside(old(dev.world).flash.slot1, dev.world.flash.slot1, off, len)
        invariant attempt > 0 && rc == 0 ==>
          Contains(dev.world.flash.slot1, off, dev.world.flash.backup[off..off + len])
        decreases if attempt == 0 then maxAttempts + 1 else maxAttempts - attempt
      {
        var chunk;
        rc, chunk := dev.Read(dev.world.flash.backup, off, len);
        if rc == 0 {
          Slot1ChangeOnly(dev.oracle, dev.world, off, len);
          rc := dev.ChangeSlot1(off, len);
          if rc == 0 {
            rc := VerifySlot1(off, chunk);
          }
        }
        attempt := attempt + 1;
      }
    }

    method StreamImage(size: nat) returns (rc: int)
      requires Valid() && size <= |dev.world.flash.backup| && size <= |dev.world.flash.slot1|
      modifies dev
      ensures Valid() && Slot1Only(old(dev.world), dev.world)
      ensures rc == 0 ==> dev.world.flash.slot1[..size] == dev.world.flash.backup[..size]
    {
      rc := 0;
      var off := 0;
      while rc == 0 && off < size
        invariant Valid() && Slot1Only(old(dev.world), dev.world)
        invariant rc == 0 ==> dev.world.flash.slot1[..Min(off, size)] == dev.world.flash.backup[..Min(off, size)]
        decreases size - off, if rc == 0 then 1 else 0
      {
        var len := Min(chunkSize, size - off);
        ghost var before := dev.world.flash.slot1;
        rc := CopyChunkToSlot1(off, len);
        if rc == 0 {
          PrefixGrows(before, dev.world.flash.slot1, dev.world.flash.backup, off, len);
        }
        off := off + chunkSize;
      }
    }

    /** factory_backup_image_size and parse_tlv_total. */
    method BackupImageSize() returns (rc: int, size: nat)
      requires Valid()
      modifies dev
      ensures Valid() && dev.world == old(dev.world).(ops := dev.world.ops)
      ensures rc == 0 ==> ImageSize(dev.world.flash.backup) == Size(size)
    {
      size := 0;
      var b := dev.world.flash.backup;
      var hdr;
      rc, hdr := dev.Read(b, 0, 32);
      if rc != 0 {
        return;
      }
      if Le32(hdr, 0) != IMAGE_HEADER_MAGIC {
        return EBADF, 0;
      }
      SameParts(b, hdr);
      var tlvOff := (Le16(hdr, 8) + Le32(hdr, 12) + Le16(hdr, 10)) % U32;
      if (tlvOff + 4) % U32 > |b| {
        return EBADF, 0;
      }
      var info;
      rc, info := dev.Read(b, tlvOff, 4);
      if rc != 0 {
        return;
      }
      InfoBytes(b, tlvOff, info);
      if Le16(info, 0) != IMAGE_TLV_INFO_MAGIC {
        return EBADF, 0;
      }
      size := (tlvOff + Le16(info, 2)) % U32;
      if size == 0 || size > |b| {
        return EBADF, 0;
      }
    }

    method CopyBackupToSlot1() returns (rc: int, size: nat)
      requires Valid()
      modifies dev
      ensures Valid() && Slot1Only(old(dev.world), dev.world)
      ensures rc == 0 ==> ImageSize(dev.world.flash.backup) == Size(size) && size <= |dev.world.flash.slot1|
      ensures rc == 0 ==>
        size <= |dev.world.flash.backup| && dev.world.flash.slot1[..size] == dev.world.flash.backup[..size]
    {
      size := 0;
      rc := dev.Outcome();
      if rc != 0 {
        return;
      }
      rc, size := BackupImageSize();
      if rc != 0 {
        return;
      }
      ImageSizeInRange(dev.world.flash.backup);
      if size > |dev.world.flash.slot1| {
        return ENOSPC, 0;
      }
      Slot1ChangeOnly(dev.oracle, dev.world, 0, |dev.world.flash.slot1|);
      rc := dev.ChangeSlot1(0, |dev.world.flash.slot1|);
      if rc == 0 {
        rc := StreamImage(size);
      }
    }

    /** Request the test swap until MCUboot reports it twice, erasing the trailer page between
        tries: success is some try of the first five staging the swap, and the first such try is
        the last thing done. Only the last page of slot1 is touched. */
    method StagePendingSwap() returns (rc: int, ghost last: nat)
      requires Valid()
      modifies dev
      ensures Valid() && TrailerOnly(old(dev.world), dev.world, dev.lastPage)
      ensures rc == 0 || rc == EIO
      ensures rc == 0 <==> SomeTryStages(dev.oracle, old(dev.world).ops)
      ensures rc == 0 ==>
        && last < STAGE_SWAP_MAX_ATTEMPTS && StagesAt(dev.oracle, old(dev.world).ops, last)
        && NoneStages(dev.oracle, old(dev.world).ops, last)
        && dev.world.ops == TriesEnd(dev.oracle, old(dev.world).ops, last + 1)
        && JustStaged(dev.oracle, dev.world, dev.lastPage)
    {
      rc, last := EIO, 0;
      ghost var w := dev.world;
      var i := 0;
      while rc != 0 && i < STAGE_SWAP_MAX_ATTEMPTS
        invariant Valid() && TrailerOnly(w, dev.world, dev.lastPage) && i <= STAGE_SWAP_MAX_ATTEMPTS
        invariant rc == 0 || (rc == EIO && NoneStages(dev.oracle, w.ops, i))
        invariant dev.world.ops == TriesEnd(dev.oracle, w.ops, i)
        invariant rc == 0 ==>
          && i == last + 1 && StagesAt(dev.oracle, w.ops, last) && NoneStages(dev.oracle, w.ops, last)
          && JustStaged(dev.oracle, dev.world, dev.lastPage)
        decreases STAGE_SWAP_MAX_ATTEMPTS - i
      {
        last := i;
        rc := RetrySwap(w, i);
        i := i + 1;
      }
    }

    /** The try numbered `i` of those begun in state `w`. */
    method RetrySwap(ghost w: World, i: nat) returns (rc: int)
      requires Valid() && TrailerOnly(w, dev.world, dev.lastPage) && dev.world.ops == TriesEnd(dev.oracle, w.ops, i)
      modifies dev
      ensures Valid() && TrailerOnly(w, dev.world, dev.lastPage)
      ensures dev.world.ops == TriesEnd(dev.oracle, w.ops, i + 1)
      ensures rc == if StagesAt(dev.oracle, w.ops, i) then 0 else EIO
      ensures rc == 0 ==> JustStaged(dev.oracle, dev.world, dev.lastPage)
    {
      if i > 0 {
        EraseTrailerPage();
      }
      rc := TrySwap();
    }

    /** erase_slot1_trailer_page; its result is ignored. */
    method EraseTrailerPage()
      requires Valid()
      modifies dev
      ensures Valid() && TrailerOnly(old(dev.world), dev.world, dev.lastPage)
      ensures dev.world.ops == AfterErase(dev.oracle, old(dev.world).ops)
    {
      var pageInfo := dev.Outcome();
      if pageInfo == 0 {
        var _ := ChangeLastPage();
      }
    }

    /** One try: under the bus, request the upgrade and read the swap type back twice. */
    method TrySwap() returns (rc: int)
      requires Valid()
      modifies dev
      ensures Valid() && TrailerOnly(old(dev.world), dev.world, dev.lastPage)
      ensures rc == if TryStages(dev.oracle, old(dev.world).ops) then 0 else EIO
      ensures dev.world.ops == AfterTry(dev.oracle, old(dev.world).ops)
      ensures rc == 0 ==> JustStaged(dev.oracle, dev.world, dev.lastPage)
    {
      rc := EIO;
      ghost var w := dev.world;
      var acquired := dev.Outcome();
      if acquired == 0 {
        var requested := ChangeLastPage();
        if requested == 0 {
          var swapA := dev.Outcome();
          var swapB := dev.Outcome();
          if swapA == BOOT_SWAP_TYPE_TEST && swapB == BOOT_SWAP_TYPE_TEST {
            rc := 0;
            assert StagedFrom(dev.oracle, w, dev.world, dev.lastPage);
          }
        }
      }
    }

    method ChangeLastPage() returns (rc: int)
      requires Valid()
      modifies dev
      ensures Valid() && TrailerOnly(old(dev.world), dev.world, dev.lastPage)
      ensures rc == Rc(dev.oracle, old(dev.world))
      ensures dev.world == Slot1Changed(dev.oracle, old(dev.world), dev.lastPage,
                                        |old(dev.world).flash.slot1| - dev.lastPage)
    {
      var len := |dev.world.flash.slot1| - dev.lastPage;
      Slot1ChangeOnly(dev.oracle, dev.world, dev.lastPage, len);
      rc := dev.ChangeSlot1(dev.lastPage, len);
    }

    method VerifyAndStage() returns (rc: int)
      requires Valid()
      modifies dev
      ensures Valid() && TrailerOnly(old(dev.world), dev.world, dev.lastPage)
      ensures rc == 0 ==> JustStaged(dev.oracle, dev.world, dev.lastPage)
      ensures var w := old(dev.world);
        rc == 0 <==>
          && dev.oracle(w.ops).rc == 0 && dev.oracle(w.ops + 1).rc == 0
          && 4 <= |w.flash.slot1| && Le32(w.flash.slot1, 0) == IMAGE_HEADER_MAGIC
          && SomeTryStages(dev.oracle, w.ops + 2)
    {
      rc := dev.Outcome();
      if rc != 0 {
        return;
      }
      var magic;
      rc, magic := dev.Read(dev.world.flash.slot1, 0, 4);
      if rc != 0 {
        return;
      }
      if Le32(magic, 0) != IMAGE_HEADER_MAGIC {
        return EBADF;
      }
      ghost var last;
      rc, last := StagePendingSwap();
    }

    /** The part of the restore done under the claim. */
    method CopyAndStage() returns (rc: int, size: nat)
      requires Valid()
      modifies dev
      ensures Valid() && Slot1Only(old(dev.world), dev.world)
      ensures rc == 0 ==>
        && ImageSize(dev.world.flash.backup) == Size(size)
        && 0 < size <= |dev.world.flash.backup| && size <= |dev.world.flash.slot1|
        && dev.world.flash.slot1[..Min(size, dev.lastPage)] == dev.world.flash.backup[..Min(size, dev.lastPage)]
        && JustStaged(dev.oracle, dev.world, dev.lastPage)
    {
      rc, size := CopyBackupToSlot1();
      if rc == 0 {
        ghost var copied := dev.world.flash.slot1;
        rc := VerifyAndStage();
        PrefixOfPrefix(copied, dev.world.flash.slot1, dev.world.flash.backup, size, dev.lastPage);
        ImageSizeInRange(dev.world.flash.backup);
      }
    }

    /** Restore. `reboot` is set when the staged image is about to be booted: then slot1 holds
        the backup's image up to its computed length, at least as far as the trailer page, and a
        try that staged the swap was the last thing done. */
    method RestoreToSlot1() returns (rc: int, reboot: bool, ghost size: nat)
      requires Valid()
      modifies dev, this`ram
      ensures Valid() && Slot1Only(old(dev.world), dev.world)
      ensures reboot <==> rc == 0
      ensures reboot ==>
        && old(ram).captured && Arena.Grants(old(ram).arena, Arena.Factory)
        && ImageSize(dev.world.flash.backup) == Size(size)
        && 0 < size <= |dev.world.flash.backup| && size <= |dev.world.flash.slot1|
        && dev.world.flash.slot1[..Min(size, dev.lastPage)] == dev.world.flash.backup[..Min(size, dev.lastPage)]
        && JustStaged(dev.oracle, dev.world, dev.lastPage)
      ensures reboot && size <= dev.lastPage ==> dev.world.flash.slot1[..size] == dev.world.flash.backup[..size]
      ensures Clean(old(ram)) ==> Clean(ram)
      ensures ram.captured == old(ram).captured
    {
      reboot, size := false, 0;
      if !ram.captured {
        return ENOENT, false, 0;
      }
      var granted := Arena.Grants(ram.arena, Arena.Factory);
      ram := ram.(arena := Arena.AfterClaim(ram.arena, Arena.Factory), chunk := granted);
      if !granted {
        return EBUSY, false, 0;
      }
      ram := ram.(inProgress := true, longOp := true);
      var n;
      rc, n := CopyAndStage();
      size := n;
      ram := ram.(longOp := false, inProgress := false, chunk := false,
                  arena := Arena.AfterRelease(ram.arena, Arena.Factory));
      reboot := rc == 0;
    }

    // ---- A lifetime ----

    /** The stored flag is not set behind the cached one. */
    ghost predicate InStep()
      reads this, dev
    {
      dev.world.flash.captured ==> ram.captured
    }

    method Do(a: Action)
      requires Valid()
      modifies dev, this
      ensures Valid() && hazards >= old(hazards)
      ensures FailuresChangeNothing(dev.oracle) && a != ForcedCapture && old(InStep()) ==>
        hazards == old(hazards) && InStep()
      ensures hazards == old(hazards) && GuardedRun(old(dev.world).log) ==> GuardedRun(dev.world.log)
      ensures old(dev.world).log <= dev.world.log
    {
      match a
      case Capture =>
        if FailuresChangeNothing(dev.oracle) && !dev.world.flash.captured {
          FlagOnlyOnSuccess(dev.oracle, dev.world, ram, chunkSize, maxAttempts);
        }
        if !ram.captured && CaptureIsSafe(dev.world, ram) && GuardedRun(dev.world.log) {
          SafeCaptureIsGuarded(dev.oracle, dev.world, ram, chunkSize, maxAttempts);
        }
        LogGrows(dev.oracle, dev.world, ram, chunkSize, maxAttempts);
        var _ := CaptureUnforced();
      case ForcedCapture =>
        if CaptureIsSafe(dev.world, ram) && GuardedRun(dev.world.log) {
          SafeCaptureIsGuarded(dev.oracle, dev.world, ram, chunkSize, maxAttempts);
        }
        LogGrows(dev.oracle, dev.world, ram, chunkSize, maxAttempts);
        var _ := DoCapture();
      case Restore => var _, _, _ := RestoreToSlot1();
      case Update(image) =>
        if |image| == |dev.world.flash.slot0| {
          if GuardedRun(dev.world.log) { UpdateIsGuarded(dev.world, image); }
          dev.Become(dev.world.flash.(slot0 := image));
        }
    }

    /** One power-up, cut short by a power loss at any point the flash has passed through. */
    method PowerUp(boot: Boot)
      requires Valid()
      modifies dev, this
      ensures Valid() && hazards >= old(hazards)
      ensures FailuresChangeNothing(dev.oracle) && Unforced(boot) ==> hazards == old(hazards)
      ensures hazards == old(hazards) && GuardedRun(old(dev.world).log) ==> GuardedRun(dev.world.log)
      ensures dev.world.log[0] == old(dev.world).log[0]
    {
      ram := Ram(false, Arena.INITIAL, false, false, false);
      LoadFlag(boot.loadOk);
      for i := 0 to |boot.actions|
        invariant Valid() && hazards >= old(hazards)
        invariant hazards == old(hazards) && GuardedRun(old(dev.world).log) ==> GuardedRun(dev.world.log)
        invariant old(dev.world).log <= dev.world.log
        invariant FailuresChangeNothing(dev.oracle) && Unforced(boot) ==> hazards == old(hazards) && InStep()
      {
        Do(boot.actions[i]);
      }
      dev.PowerLoss();
    }

    /** Any number of power-ups from a clear flag, each with any number of captures, forced
        captures, restores and updates, and a power loss anywhere: unless a capture began where it
        is not safe, in every state of the flash a set flag means that the backup holds slot0 as
        it was when the flag was set. On the unforced path, with flags that load and failed
        settings writes that change nothing, no capture begins where it is not safe. */
    method Lifetime(boots: seq<Boot>)
      requires Valid() && GuardedRun(dev.world.log) && !dev.world.log[0].captured
      modifies dev, this
      ensures Valid() && hazards >= old(hazards)
      ensures hazards == old(hazards) ==>
        forall i :: 0 <= i < |dev.world.log| && dev.world.log[i].captured ==> HoldsCapture(dev.world.log, i)
      ensures FailuresChangeNothing(dev.oracle) && (forall i :: 0 <= i < |boots| ==> Unforced(boots[i])) ==>
        hazards == old(hazards)
    {
      for i := 0 to |boots|
        invariant Valid() && hazards >= old(hazards) && !dev.world.log[0].captured
        invariant hazards == old(hazards) ==> GuardedRun(dev.world.log)
        invariant FailuresChangeNothing(dev.oracle) && (forall k :: 0 <= k < i ==> Unforced(boots[k])) ==>
          hazards == old(hazards)
      {
        PowerUp(boots[i]);
      }
      if hazards == old(hazards) {
        forall i | 0 <= i < |dev.world.log| && dev.world.log[i].captured ensures HoldsCapture(dev.world.log, i) {
          FlagMeansCaptured(dev.world.log, i);
        }
      }
    }
  }
}
