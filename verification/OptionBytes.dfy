/** Self-healing of the STM32 option bytes across resets, bounded by a guard in memory that
    survives a reset but not a power cycle. Source: option_bytes.c. */
module OptionBytes {
  import opened Common

  const MAGIC: bv32 := 0x424F5231

  // The asserted fields of FLASH_OPTR: BOR_LEV (bits 8-10), nSWBOOT0 (26) and nBOOT0 (27).
  const BOR_MASK: bv32 := 0x0000_0700
  const NSWBOOT0_MASK: bv32 := 0x0400_0000
  const NBOOT0_MASK: bv32 := 0x0800_0000

  predicate OkNBoot0(optr: bv32) { (optr >> 27) & 1 == 1 }
  predicate OkNSwBoot0(optr: bv32) { (optr >> 26) & 1 == 0 }
  predicate OkBor(optr: bv32) { (optr & BOR_MASK) >> 8 == 1 }

  predicate AllCorrect(optr: bv32) { OkNBoot0(optr) && OkNSwBoot0(optr) && OkBor(optr) }

  /** What the programmer is asked to change. */
  datatype Request = Request(nBoot0: bool, nSwBoot0: bool, bor: bool, config: bv32)

  function Mask(r: Request): bv32 {
    (if r.nBoot0 then NBOOT0_MASK else 0) | (if r.nSwBoot0 then NSWBOOT0_MASK else 0) | (if r.bor then BOR_MASK else 0)
  }

  /** The register once a request has taken effect. */
  function Applied(optr: bv32, r: Request): bv32 {
    (optr & !Mask(r)) | (r.config & Mask(r))
  }

  /** Memory that a reset leaves alone; after power-on it holds anything. */
  datatype NoInit = NoInit(magic: bv32, attempted: bv32) {
    predicate Guarding() { magic == MAGIC && attempted != 0 }
  }

  /** One boot: the register it reads, whether MCUboot is there and holds the image confirmed,
      and whether unlocking and programming succeed. */
  datatype Boot = Boot(optr: bv32, mcuboot: bool, confirmed: bool, halOk: bool)

  /** The request for the fields that have drifted. */
  function Repair(optr: bv32): Request {
    Request(!OkNBoot0(optr), !OkNSwBoot0(optr), !OkBor(optr),
      (if !OkBor(optr) then 1 << 8 else 0) | (if !OkNBoot0(optr) then NBOOT0_MASK else 0))
  }

  predicate Attempts(g: NoInit, b: Boot) {
    !AllCorrect(b.optr) && !g.Guarding() && (b.mcuboot ==> b.confirmed)
  }

  /** Whether the boot ends in an option-byte launch, which resets the chip. */
  predicate Launches(g: NoInit, b: Boot) { Attempts(g, b) && b.halOk }

  function NextGuard(g: NoInit, b: Boot): NoInit {
    if AllCorrect(b.optr) then NoInit(MAGIC, 0)
    else if Attempts(g, b) then NoInit(MAGIC, 1)
    else g
  }

  class Head {
    var guard: NoInit

    /** option_bytes_check_and_apply. The result is the request that was launched, if any. */
    method CheckAndApply(b: Boot) returns (launched: Option<Request>)
      modifies this
      ensures guard == NextGuard(old(guard), b)
      ensures launched == if Launches(old(guard), b) then Some(Repair(b.optr)) else None
    {
      launched := None;
      var okNBoot0, okNSwBoot0, okBor := OkNBoot0(b.optr), OkNSwBoot0(b.optr), OkBor(b.optr);
      if !okNBoot0 || !okNSwBoot0 || !okBor {
        if guard.magic == MAGIC && guard.attempted != 0 {
        } else if b.mcuboot && !b.confirmed {
        } else {
          guard := NoInit(MAGIC, 1);
          launched := OptionBytesRepair(okNBoot0, okNSwBoot0, okBor, b.halOk);
        }
      } else {
        guard := NoInit(MAGIC, 0);
      }
    }

    method OptionBytesRepair(okNBoot0: bool, okNSwBoot0: bool, okBor: bool, halOk: bool)
      returns (launched: Option<Request>)
      ensures launched.Some? <==> halOk
      ensures launched.Some? ==> launched.value == Request(!okNBoot0, !okNSwBoot0, !okBor,
        (if !okBor then 1 << 8 else 0) | (if !okNBoot0 then NBOOT0_MASK else 0))
    {
      var config: bv32 := 0;
      if !okBor { config := config | (1 << 8); }
      if !okNBoot0 { config := config | NBOOT0_MASK; }
      launched := if halOk then Some(Request(!okNBoot0, !okNSwBoot0, !okBor, config)) else None;
    }
  }

  // ---- What a request does ----

  /** No bit outside the mask changes. */
  lemma AppliedElsewhere(optr: bv32, mask: bv32, config: bv32, other: bv32)
    requires mask & other == 0
    ensures ((optr & !mask) | (config & mask)) & other == optr & other
  {}

  /** Inside the mask the register takes the requested value. */
  lemma AppliedWithin(optr: bv32, mask: bv32, config: bv32, part: bv32)
    requires mask & part == part
    ensures ((optr & !mask) | (config & mask)) & part == config & part
  {}

  // The checks read through masks.
  lemma NBoot0ByMask(x: bv32) ensures OkNBoot0(x) <==> x & 0x0800_0000 == 0x0800_0000 {}
  lemma NSwBoot0ByMask(x: bv32) ensures OkNSwBoot0(x) <==> x & 0x0400_0000 == 0 {}
  lemma BorByMask(x: bv32) ensures OkBor(x) <==> x & 0x0000_0700 == 0x0000_0100 {}

  /** The three fields do not overlap, nor does the watchdog mode (bit 16) or any other bit. */
  lemma MaskParts(r: Request)
    ensures Mask(r) & NBOOT0_MASK == if r.nBoot0 then NBOOT0_MASK else 0
    ensures Mask(r) & NSWBOOT0_MASK == if r.nSwBoot0 then NSWBOOT0_MASK else 0
    ensures Mask(r) & BOR_MASK == if r.bor then BOR_MASK else 0
    ensures Mask(r) & 0xF3FF_F8FF == 0
  {}

  lemma ConfigParts(optr: bv32)
    ensures var c := Repair(optr).config;
      && (!OkNBoot0(optr) ==> c & NBOOT0_MASK == NBOOT0_MASK)
      && c & NSWBOOT0_MASK == 0
      && (!OkBor(optr) ==> c & BOR_MASK == 0x0000_0100)
  {}

  lemma FieldAfter(optr: bv32, mask: bv32, config: bv32, part: bv32, asked: bool)
    requires mask & part == if asked then part else 0
    ensures ((optr & !mask) | (config & mask)) & part == if asked then config & part else optr & part
  {
    if asked { AppliedWithin(optr, mask, config, part); } else { AppliedElsewhere(optr, mask, config, part); }
  }

  /** Only drifted fields are asked for and fields that were right keep their value; once the
      request takes effect all three are right. No other bit, the watchdog mode among them,
      changes. */
  lemma RepairIsExact(optr: bv32)
    ensures var r := Repair(optr);
      && (r.nBoot0 <==> !OkNBoot0(optr)) && (r.nSwBoot0 <==> !OkNSwBoot0(optr)) && (r.bor <==> !OkBor(optr))
      && AllCorrect(Applied(optr, r))
      && Applied(optr, r) & 0xF3FF_F8FF == optr & 0xF3FF_F8FF
  {
    var r := Repair(optr);
    var after := Applied(optr, r);
    MaskParts(r);
    ConfigParts(optr);
    FieldAfter(optr, Mask(r), r.config, NBOOT0_MASK, r.nBoot0);
    FieldAfter(optr, Mask(r), r.config, NSWBOOT0_MASK, r.nSwBoot0);
    FieldAfter(optr, Mask(r), r.config, BOR_MASK, r.bor);
    AppliedElsewhere(optr, Mask(r), r.config, 0xF3FF_F8FF);
    NBoot0ByMask(optr);
    NSwBoot0ByMask(optr);
    BorByMask(optr);
    NBoot0ByMask(after);
    NSwBoot0ByMask(after);
    BorByMask(after);
  }

  // ---- Sequences of warm resets ----

  /** The guard before boot `n` of a sequence that starts with arbitrary memory. */
  function GuardBefore(g: NoInit, bs: seq<Boot>, n: nat): NoInit
    requires n <= |bs|
  {
    if n == 0 then g else NextGuard(GuardBefore(g, bs, n - 1), bs[n - 1])
  }

  predicate LaunchesAt(g: NoInit, bs: seq<Boot>, n: nat)
    requires n < |bs|
  {
    Launches(GuardBefore(g, bs, n), bs[n])
  }

  /** After an attempt the guard stands until a boot sees all three fields correct. */
  lemma {:induction false} GuardStands(g: NoInit, bs: seq<Boot>, i: nat, j: nat)
    requires i < j <= |bs| && LaunchesAt(g, bs, i)
    requires forall k :: i < k < j ==> !AllCorrect(bs[k].optr)
    ensures GuardBefore(g, bs, j).Guarding()
  {
    if j > i + 1 { GuardStands(g, bs, i, j - 1); }
  }

  /** Between two launches some boot saw all three fields correct. */
  lemma LaunchesAreSeparated(g: NoInit, bs: seq<Boot>, i: nat, j: nat)
    requires i < j < |bs| && LaunchesAt(g, bs, i) && LaunchesAt(g, bs, j)
    ensures exists k :: i < k < j && AllCorrect(bs[k].optr)
  {
    if forall k :: i < k < j ==> !AllCorrect(bs[k].optr) {
      GuardStands(g, bs, i, j);
      assert false;
    }
  }

  function LaunchCount(g: NoInit, bs: seq<Boot>, n: nat): nat
    requires n <= |bs|
  {
    if n == 0 then 0 else LaunchCount(g, bs, n - 1) + if LaunchesAt(g, bs, n - 1) then 1 else 0
  }

  lemma {:induction false} LaunchCountBound(g: NoInit, bs: seq<Boot>, n: nat)
    requires n <= |bs| && forall k :: 0 <= k < |bs| ==> !AllCorrect(bs[k].optr)
    ensures LaunchCount(g, bs, n) <= 1
    ensures LaunchCount(g, bs, n) == 1 ==> GuardBefore(g, bs, n).Guarding()
  {
    if n > 0 { LaunchCountBound(g, bs, n - 1); }
  }

  /** If writes never take effect, the module resets the head at most once per power cycle. */
  lemma NoBootLoop(g: NoInit, bs: seq<Boot>)
    requires forall k :: 0 <= k < |bs| ==> !AllCorrect(bs[k].optr)
    ensures LaunchCount(g, bs, |bs|) <= 1
  {
    LaunchCountBound(g, bs, |bs|);
  }

  /** With MCUboot an unconfirmed image is never reset away, and trying nothing keeps the one
      attempt for later. */
  lemma UnconfirmedIsLeftAlone(g: NoInit, b: Boot)
    requires b.mcuboot && !b.confirmed
    ensures !Launches(g, b) && (!AllCorrect(b.optr) ==> NextGuard(g, b) == g)
  {}

  /** Exactly these boots launch the repair: a field has drifted, the chip has not been reset for
      it since power-on, no unconfirmed image would be reset away, and the programmer works. A
      boot whose programmer fails uses the attempt up all the same. */
  lemma LaunchesIff(g: NoInit, b: Boot)
    ensures Launches(g, b) <==>
      && (b.optr & 0x0800_0000 == 0 || b.optr & 0x0400_0000 != 0 || b.optr & 0x0000_0700 != 0x0000_0100)
      && (g.magic != 0x424F5231 || g.attempted == 0)
      && (!b.mcuboot || b.confirmed) && b.halOk
    ensures Launches(g, b.(halOk := true)) ==> NextGuard(g, b).magic == 0x424F5231 && NextGuard(g, b).attempted != 0
  {
    NBoot0ByMask(b.optr);
    NSwBoot0ByMask(b.optr);
    BorByMask(b.optr);
    OneBit(b.optr);
  }

  lemma OneBit(x: bv32)
    ensures x & 0x0800_0000 == 0x0800_0000 || x & 0x0800_0000 == 0
  {}

  /** After power-on with memory that does not hold the magic word, the first boot that sees a
      drifted register and no unconfirmed image launches its repair. */
  lemma {:induction false} DriftIsRepaired(g: NoInit, bs: seq<Boot>, n: nat)
    requires n < |bs| && g.magic != MAGIC && !AllCorrect(bs[n].optr) && bs[n].halOk
    requires bs[n].mcuboot ==> bs[n].confirmed
    requires forall k :: 0 <= k < n ==> AllCorrect(bs[k].optr) || (bs[k].mcuboot && !bs[k].confirmed)
    ensures LaunchesAt(g, bs, n)
  {
    StaysArmed(g, bs, n);
  }

  lemma {:induction false} StaysArmed(g: NoInit, bs: seq<Boot>, n: nat)
    requires n <= |bs| && g.magic != MAGIC
    requires forall k :: 0 <= k < n ==> AllCorrect(bs[k].optr) || (bs[k].mcuboot && !bs[k].confirmed)
    ensures !GuardBefore(g, bs, n).Guarding()
  {
    if n > 0 { StaysArmed(g, bs, n - 1); }
  }

  /** A launch whose write takes effect is followed by a quiet boot that re-arms the module. */
  lemma RepairConverges(g: NoInit, b: Boot, c: Boot)
    requires Launches(g, b) && c.optr == Applied(b.optr, Repair(b.optr))
    ensures !Launches(NextGuard(g, b), c) && !NextGuard(NextGuard(g, b), c).Guarding()
  {
    RepairIsExact(b.optr);
  }
}
