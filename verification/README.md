# Verified model of the rebreather head firmware

This project models the parts of the DiveCAN rebreather head whose promises hold over whole runs:
protocols between threads, transactions over flash that may fail or lie, boot-time gates, voting and
control arithmetic, and the log tooling. Verify with `dafny verify dfyconfig.toml`.

| files | system part |
|---|---|
| `Arena.dfy`, `ArenaProtocol.dfy` | the shared maintenance scratch region and the hold it keeps on the periodic error-histogram save: first as classes (one call at a time), then as interleaved steps of any number of threads over two mutexes |
| `FactoryFlash.dfy`, `FactoryCapture.dfy`, `FactoryImage.dfy` | capturing the running image as factory backup and restoring it, over a flash whose writes may report success and store anything |
| `WorstCaseStack.dfy` | the worst-case-stack analyser's memoised search against longest call paths |
| `PidControl.dfy` | the PPO2 controller and the solenoid timing |
| `Consensus.dfy`, `ConsensusVote.dfy` | voting on three oxygen cells |
| `Calibration.dfy` | calibration as an all-or-nothing transaction over the coefficient store |
| `PostGate.dfy` | the self-test that confirms or rolls back an updated image |
| `OptionBytes.dfy` | option-byte self-healing across resets |
| `I2cBus.dfy` | line classification, quiet wait and retried transfers on a shared I2C bus |
| `DiveO2Framing.dfy`, `DiveO2Parse.dfy` | line framing and parsing of a digital cell's UART stream |
| `Telemetry.dfy`, `TimeAxis.dfy` | the flash-log stream codec and the time axis over boot epochs |
| `Common.dfy` | options, bytes, little-endian integers and rounding, shared by the others |

Conventions. Floats are reals and `roundf`/`lround` round halves away from zero; 8-, 16- and 32-bit
wrap-around is written out where the code relies on it. A call into a driver, the settings store or
flash may give any result within a frame: a write touches only its own range or key, a read that
succeeds is faithful. What flash does is a parameter of a run, so laws can speak of every run. Clocks,
line samples, channel readings and UART bytes are parameters. Code that updates state is a class or a loop proved against a specification function; the laws are
lemmas about that function.

## What turned out not to hold

Each of these has the input that shows it and the exact condition, for all inputs, under which the
code does what is promised.

- Depth compensation may exceed the longest firing: the maximum holds exactly without compensation, at
  unknown pressure or from 1000 mbar up (`MaximumHoldsIff`). Where the compensated maximum is longer
  than the cycle the closed time wraps round to over an hour (`CycleAddsUpIff`); with the limits in
  `Firmware/src/ppo2_control.c:94-96` that happens at 900 mbar (`AltitudeOverruns`).
- Reordering the cells can change the consensus, exactly when one reading is halfway between two
  others that are more than 0.20 and at most 0.30 bar apart (`OrderIrrelevantIff`).
- A capture keeps the promise of the captured flag on every run exactly when the flag is clear, the
  claim is denied, slot0 is too large or there is no backup. Otherwise it can leave the flag set over
  a destroyed backup: a forced capture, a first-boot capture after a failed settings load, or a second
  one in the same power-up after a flag save that failed and was stored all the same
  (`CaptureIsGuardedIff`, `CaptureOnceIsGuardedIff`, `CaptureCanDamage`).
- A capture that returns 0 has its flag stored exactly if the settings write kept it: the flag is not
  read back (`CaptureHolds`).
- The backup's computed length is right exactly when the header's sizes do not wrap 32 bits to bytes
  that can pass for a TLV area (`SizeIsRightIff`).
- A calibration that ends OK has its coefficients in the cache, but not always in flash: a save that
  reports success and drops the key goes unnoticed exactly when the cell already read back within
  1e-5 of its new coefficient (`OkMeansInFlashIff`, `OkRunIsInFlashIff`).
- The saves of a rollback are not read back. If they all report success, every cell reads back its
  starting coefficient exactly when each left it in flash, or left no key while the cache still read
  it (`FailedRunIsRolledBackIff`); even a rejected request can lose one (`RejectedRunCanLose`).
- `POST_CONFIRMED` is documented as a successful confirmation (`Firmware/src/firmware_confirm.h:29`).
  It is one exactly when the image was confirmed at boot or the self-test's write succeeded; a failed
  write, and a deferred self-test on an unconfirmed image, publish the same state
  (`ConfirmedStateIsTrueIff`, `ConfirmedStateIsTrustedIff`).
- The stack report promises "unbounded" for recursion (`Firmware/scripts/wcs.py:11-14`); the mark
  survives exactly at pointer calls (`CalcAll`, `RecursionIsReportedBounded`).
- The error code of a digital cell is documented as healthy only if zero
  (`Firmware/src/oxygen_cell_diveo2.c:157-158`); it is cut to 16 bits first and reads as healthy exactly
  if it is a multiple of 65536 (`HealthyCodeIff`, `HighCodeReadsHealthy`).
- A line of NUL bytes from a digital cell brings back what earlier lines left in the message buffer,
  up to a whole measurement; the message depends on the line alone exactly when the line has another
  byte or is at least 84 bytes long (`MessageDependsOnFrameIff`, `OldFrameReturns`).
- A number beyond 32 bits in a digital cell's frame is not refused but saturates; it is read back exactly
  if it fits (`ParseRendered`).
- A measurement with a space before its header latches no protocol family; it does exactly without
  (`FamilyIsLatchedIff`).

Where comments and code disagree, the code is modelled: `diveo2_parse_i32` is described as refusing
leading garbage, and lets white space, a plus sign and numbers beyond 32 bits through; `option_bytes.c` opens by saying that it never
rewrites option bytes, and does; `cal_analog_absolute` is described as calibrating analog cells, and
calibrates every configured cell; `maint_arena` generation changes only when a different
scratch-writing owner takes the contents, not on every change of owner.

## Model

| member | source | states |
|---|---|---|
| `ArenaProtocol.StepInv` | Firmware/src/maintenance_arena.c:45-106 | one step of any thread (lock, check, pause, bump, take, release, unlock, save) keeps the invariant tying program counters, both mutexes, pause depth, ownership and cache validity |
| `ArenaProtocol.RunInv` | Firmware/src/maintenance_arena.c:45-106 | the invariant holds after every schedule of any number of threads |
| `ArenaProtocol.OwnedArenaPausesSaves` | Firmware/src/error_histogram.c:169-206 | in every interleaving: an owned arena has pause depth at least 1 and no periodic save in progress; outside the arena mutex the depth is exactly 1 if owned and 0 if free |
| `ArenaProtocol.SectionsAreExclusive` | Firmware/src/maintenance_arena.c:50-105 | no two threads are inside the same critical section |
| `ArenaProtocol.UnchangedGenerationMeansOwnContents` | Firmware/src/maintenance_arena.c:24-89 | if the log index owns the arena and sees the generation it recorded (fewer than 2^32 changes ago), nobody else has written the bytes since |
| `ArenaProtocol.OwnerKeepsArena` | Firmware/src/maintenance_arena.c:45-99 | from any point of any run, an exclusive owner, or the log index while it builds, keeps the arena until it releases or unpins itself: every other claim decided meanwhile is denied, nobody else writes, and an exclusive owner's contents and generation stay |
| `ArenaProtocol.OwnerChangesOnlyBy` | Firmware/src/maintenance_arena.c:52-99 | in any run a held arena changes hands only at its owner's own release, or when a claim evicts a log index that does not build |
| `ArenaProtocol.AnswersAreRight` | Firmware/src/maintenance_arena.c:52-89 | in any run a claim answers "granted" exactly when the claimant now owns the arena and its contents, and "denied" exactly when another owner that cannot be evicted has it |
| `ArenaProtocol.SomeThreadCanRun` | Firmware/src/maintenance_arena.c:45-106 | whenever a call is in progress some call can take its next step |
| `ArenaProtocol.EveryCallCanFinish` | Firmware/src/maintenance_arena.c:45-106 | from every reachable state some schedule completes all calls: the two mutexes do not deadlock |
| `ArenaProtocol.AloneClaims` | Firmware/src/maintenance_arena.c:45-89 | the stepped claim, uninterrupted, has the effect of the whole call |
| `ArenaProtocol.AloneClaimTakes` | Firmware/src/maintenance_arena.c:45-89 | uninterrupted, a claim takes an arena that is free, its own, or held by a log index that does not build; otherwise it changes nothing |
| `Arena.MaintenanceArena.Claim` | Firmware/src/maintenance_arena.c:45-89 | a free or own arena is granted to every claimant, a log index is evicted unless it builds, any other owner denies; a scratch writer gets the contents, whose generation moves exactly if they change owner; a denied claim changes nothing; the pause depth stays equal to the hold of the owner |
| `Arena.MaintenanceArena.Release` | Firmware/src/maintenance_arena.c:91-99 | only the owner frees the arena and gives the hold back |
| `Arena.MaintenanceArena.SetIndexBuilding` | Firmware/src/maintenance_arena.c:101-106 | sets the eviction pin and nothing else |
| `Arena.ErrorHistogram.SaveWork` | Firmware/src/error_histogram.c:152-183 | saves the saturated counters only when unpaused and dirty; a failed save stays dirty and is counted as a flash error if its event reaches the listener |
| `Arena.Saturated` | Firmware/src/error_histogram.c:69-79 | what is saved is each counter, or 65535 if it is larger |
| `Arena.ErrorHistogram.Resume` | Firmware/src/error_histogram.c:192-206 | an unmatched resume does not underflow |
| `FactoryFlash.FlagMeansCaptured` | Firmware/src/factory_image_backend_flash.c:190-213 | over every run of guarded flash changes, with crashes, reboots and updates in between, a set flag means that the backup holds slot0 as it was when the flag was set |
| `FactoryCapture.VerifiedContains` | Firmware/src/factory_image.c:150-177 | a read-back that succeeds means the backup holds the expected bytes at the offset |
| `FactoryImage.Unit.VerifyBackup` | Firmware/src/factory_image.c:150-177 | the piecewise loop does that read-back |
| `FactoryCapture.ChunkIsDone` | Firmware/src/factory_image.c:267-318 | success after at most five attempts means the chunk equals slot0's, although writes may lie; nothing outside the chunk changes |
| `FactoryImage.Unit.CopyChunkToBackup` | Firmware/src/factory_image.c:267-318 | the retry loop is that sequence of attempts |
| `FactoryCapture.AllIsCopied` | Firmware/src/factory_image.c:267-318 | a copy that succeeds leaves the backup beginning with all of slot0 |
| `FactoryImage.Unit.CopySlot0ToBackup` | Firmware/src/factory_image.c:267-318 | the chunk loop is that copy |
| `FactoryCapture.BlessedIsGuarded` | Firmware/src/factory_image.c:330-360 | with the flag clear, every state that size check, erase, copy, flush and flag pass through is guarded |
| `FactoryImage.Unit.CopyAndBless` | Firmware/src/factory_image.c:330-360 | the steps in that order; the cached flag follows the stored one on success |
| `FactoryCapture.CaptureHolds` | Firmware/src/factory_image.c:403-427 | a capture that returns 0 leaves the backup equal to slot0, whatever writes report; the stored flag is what its save kept |
| `FactoryCapture.WorkingCaptureSucceeds` | Firmware/src/factory_image.c:267-427 | on hardware whose operations succeed and whose writes store what they are asked to, a granted capture returns 0, with slot0 in the backup under a set flag |
| `FactoryImage.Unit.DoCapture` | Firmware/src/factory_image.c:403-427 | claim, open and sequence in that order; every exit drops claim, chunk pointer and long-operation flag |
| `FactoryImage.Unit.CaptureUnforced` | Firmware/src/factory_image.c:431-448 | a no-op once the cached flag is set, else a capture |
| `FactoryImage.Unit.Lifetime` | Firmware/src/factory_image.c:403-463 | over any number of power-ups from a clear flag, each with any captures, forced captures, restores and updates and a power loss anywhere, unless a capture began where it is not safe: in every state of the flash a set flag means the backup holds slot0 as it was when the flag was set; on the unforced path, with flags that load and failed settings writes that change nothing, none begins so |
| `FactoryCapture.CaptureIsGuardedIff` | Firmware/src/factory_image.c:330-463 | every run of a capture stays guarded at every step if and only if the stored flag is clear, the claim is denied, slot0 is larger than the backup, or there is no backup |
| `FactoryCapture.CaptureOnceIsGuardedIff` | Firmware/src/factory_image.c:431-448 | the first-boot capture is guarded on every run if and only if that holds or the cached flag is set |
| `FactoryCapture.CaptureCanDamage` | Firmware/src/factory_image.c:344-345 | otherwise a failed erase ends the capture with the flag set over a backup of which no byte is left |
| `FactoryImage.ImageSizeIsSumOfParts` | Firmware/src/factory_image.c:555-622 | without 32-bit overflow the parser accepts exactly well-formed images, with length header + image + protected TLVs + TLV total |
| `FactoryImage.SizeIsRightIff` | Firmware/src/factory_image.c:555-622 | for a given header that holds for every backup if and only if its sizes do not wrap to four bytes that can pass for a TLV area, those inside the header included |
| `FactoryImage.Unit.BackupImageSize` | Firmware/src/factory_image.c:555-622 | the reads and checks compute that length or fail |
| `FactoryImage.Unit.VerifySlot1` | Firmware/src/factory_image.c:188-210 | success means slot1 holds the expected bytes at the offset |
| `FactoryImage.Unit.CopyChunkToSlot1` | Firmware/src/factory_image.c:639-674 | success after any retries means slot1's chunk equals the backup's |
| `FactoryImage.Unit.StreamImage` | Firmware/src/factory_image.c:639-674 | success means slot1 equals the backup up to the length |
| `FactoryImage.Unit.StagePendingSwap` | Firmware/src/factory_image.c:731-784 | over every outcome of the operations: it returns 0 if and only if one of the first five tries gets the bus, has its upgrade request succeed and reads a test swap twice; then the first such try is the last thing done; only slot1's last page is touched |
| `FactoryImage.Unit.VerifyAndStage` | Firmware/src/factory_image.c:795-828 | it returns 0 if and only if slot1 opens and reads back the image magic and one of five tries stages the swap |
| `FactoryImage.Unit.RestoreToSlot1` | Firmware/src/factory_image.c:830-864 | reaching the reboot means slot1 equals the backup up to the computed length (as far as the last page), and a try that staged the swap was the last thing done to slot1; every exit drops claim, chunk pointer and long-operation flag |
| `WorstCaseStack.Analysis.CalcWcs` | Firmware/scripts/wcs.py:111-132 | terminates on every graph, keeps finished entries, and on acyclic graphs leaves the right entry at the node |
| `WorstCaseStack.Analysis.CalcAll` | Firmware/scripts/wcs.py:339-344 | in every visiting order: "unbounded" exactly at pointer calls on any graph; on acyclic graphs the entry is the greatest stack total over paths whose later functions have no pointer call, and the unresolved names are exactly those reached |
| `WorstCaseStack.CalleesGiveDeepest` | Firmware/scripts/wcs.py:124-132 | the best callee plus the own frame is the deepest path |
| `WorstCaseStack.CalleesNameReached` | Firmware/scripts/wcs.py:129-130 | the collected names are exactly those called along open paths |
| `WorstCaseStack.Analysis.constructor` | Firmware/scripts/wcs.py:266-293 | manual entries start out right |
| `WorstCaseStack.Resolve` | Firmware/scripts/wcs.py:192-198 | callees are exactly the functions the names stand for, the global of a name or, only if there is none, the local of the translation unit; the rest is unresolved |
| `WorstCaseStack.ResolveAll` | Firmware/scripts/wcs.py:300-316 | the graph has exactly those callees for every function |
| `WorstCaseStack.RecursionIsReportedBounded` | Firmware/scripts/wcs.py:120-132 | a self-calling function ends with a number |
| `PidControl.Pid.Update` | Firmware/src/ppo2_control_math.c:54-120 | the statements compute the duty and memory that the laws below are about |
| `PidControl.LinearInside` | Firmware/src/ppo2_control_math.c:54-120 | where no limit, reset or saturation applies, the duty is Kp·error + Kd·(previous − measured) + old integral + Ki·error and the integral moves by exactly Ki·error |
| `PidControl.OvershootResets` | Firmware/src/ppo2_control_math.c:74-80 | an overshoot of 0.20 bar drops the integral, and the duty is the other two terms |
| `PidControl.SaturatedUpdateHoldsIntegral` | Firmware/src/ppo2_control_math.c:98-118 | an update that returns a saturated duty in the direction of its error has not moved the integral |
| `PidControl.IntegralStaysInLimits` | Firmware/src/ppo2_control_math.c:54-120 | over every run the integral stays within its limits |
| `PidControl.OvershootUnwinds` | Firmware/src/ppo2_control_math.c:54-120 | in overshoot the integral never grows, and a strong update takes Ki times the overshoot off it |
| `PidControl.StrongUpdatesAreBounded` | Firmware/src/ppo2_control_math.c:54-120 | in any run with overshoot at least e, at most 1/(Ki*e) updates ask for Ki times the overshoot or more |
| `PidControl.UndershootWinds` | Firmware/src/ppo2_control_math.c:54-120 | below the setpoint the integral never falls; it gains Ki times the undershoot if and only if the duty that leads to is at most the full duty |
| `PidControl.WeakUpdatesAreBounded` | Firmware/src/ppo2_control_math.c:54-120 | in any run with undershoot at least e, all but 1/(Ki*e) updates ask for the full duty less Ki times the undershoot, or more |
| `PidControl.UndershootCanStall` | Firmware/src/ppo2_control_math.c:105-117 | the full duty need not be exceeded nor the integral limit reached: a state in which every update is discarded |
| `PidControl.FractionBounds` | Firmware/src/ppo2_control_math.c:131-155 | at any pressure the open fraction of a firing lies between the minimum and the compensated maximum |
| `PidControl.FiringIsWithinLimits` | Firmware/src/ppo2_control_math.c:192-250 | at any pressure a firing opens for at least the minimum; where compensation cannot raise the duty it opens for at most the maximum, and on plus off is the cycle or one microsecond more |
| `PidControl.FiresIff` | Firmware/src/ppo2_control_math.c:192-250 | the solenoid fires if and only if the duty is at least the minimum share |
| `PidControl.OnTimeIsCompensated` | Firmware/src/ppo2_control_math.c:131-250 | with compensation, a duty between the limits opens for its share of the cycle divided by the pressure in bar, rounded, and at least for the minimum |
| `PidControl.OnTimeIsShare` | Firmware/src/ppo2_control_math.c:192-250 | without compensation or pressure it opens for its share, rounded |
| `PidControl.OnTimeMonotoneInDuty` | Firmware/src/ppo2_control_math.c:192-250 | at any pressure a larger duty never opens for less |
| `PidControl.OnTimeAntitoneInPressure` | Firmware/src/ppo2_control_math.c:131-190 | as long as the pressure is known, deeper never opens for longer |
| `PidControl.MaximumHoldsIff` | Firmware/src/ppo2_control_math.c:131-155 | the maximum holds for every duty if and only if compensation is off, the pressure unknown or at least 1000 mbar |
| `PidControl.CycleAddsUpIff` | Firmware/src/ppo2_control_math.c:192-250 | for every duty on plus off is the cycle or one microsecond more, if and only if compensation cannot raise the duty or the compensated maximum fits the cycle |
| `PidControl.AltitudeOverruns` | Firmware/src/ppo2_control_math.c:237-241 | with the firmware's limits at 900 mbar a 4.9 s limit opens for 5.44 s and the wrapped closed time is over 71 minutes |
| `Consensus.ConsensusCalculate` | Firmware/src/oxygen_cell_math.c:223-319 | for any cells: every reading is reported; votes, consensus and confidence are the vote on the eligible readings alone; a voted cell exists, is Ok, reads neither 0 nor 255 and is at most the staleness limit old |
| `ConsensusVote.UnusableCellsAreIgnored` | Firmware/src/oxygen_cell_math.c:252-282 | cells that are not Ok, invalid or stale have no say: two inputs that agree on the other cells get the same votes, consensus and confidence |
| `ConsensusVote.TrustedIffTwoUsableAgree` | Firmware/src/oxygen_cell_math.c:252-316 | the confidence is above zero if and only if two cells that are Ok, valid and fresh are within 0.15 bar of each other |
| `ConsensusVote.LoneUsableIsReported` | Firmware/src/oxygen_cell_math.c:291-305 | the only such cell is reported as it is, with no confidence |
| `Consensus.TwoCellConsensus` | Firmware/src/oxygen_cell_math.c:65-105 | the two included readings are found and averaged if they agree |
| `Consensus.ThreeCellConsensus` | Firmware/src/oxygen_cell_math.c:117-203 | first closest pair, then the remaining cell against its average |
| `Consensus.ToWireIsNearest` | Firmware/src/oxygen_cell_math.c:41-51 | no other wire value is nearer to the reading |
| `ConsensusVote.VotedInIsClose` | Firmware/src/oxygen_cell_math.c:65-203 | every voted-in cell is within 0.10 bar of the consensus |
| `ConsensusVote.ClosenessIsTight` | Firmware/src/oxygen_cell_math.c:117-203 | readings 0.10 bar apart reach that bound |
| `ConsensusVote.VotedOutIsFar` | Firmware/src/oxygen_cell_math.c:163-180 | after a successful vote, an eligible cell left out is more than 0.15 bar from the consensus |
| `ConsensusVote.ConsensusIsBetween` | Firmware/src/oxygen_cell_math.c:65-203 | the consensus lies between the least and greatest voted-in reading |
| `ConsensusVote.VoteSucceedsIff` | Firmware/src/oxygen_cell_math.c:252-316 | a vote succeeds if and only if two eligible cells agree within 0.15 bar |
| `ConsensusVote.ConfidenceIsZeroTwoOrThree` | Firmware/src/oxygen_cell_math.c:327-338 | confidence is 0, 2 or 3 |
| `ConsensusVote.SolenoidInhibitedIff` | Firmware/src/oxygen_cell_math.c:288-316 | the failure value is reported if and only if no vote was possible or the average does not fit the wire |
| `ConsensusVote.OneFaultyCellIsOutvoted` | Firmware/src/oxygen_cell_math.c:65-203 | with two cells eligible and within e of the truth, whatever the third reports or if it is out of the vote, the vote succeeds and is off by at most 2e or e + 0.05 bar |
| `ConsensusVote.OrderIrrelevantIff` | Firmware/src/oxygen_cell_math.c:117-203 | permuting the cells permutes the votes and keeps the consensus if and only if no reading is torn between two pairs |
| `ConsensusVote.TornVotesDiffer` | Firmware/src/oxygen_cell_math.c:143-152 | with a torn reading two orders give different consensus values |
| `Calibration.Calibrator.Run` | Firmware/src/calibration.c:973-1141 | snapshot, check, execution and rollback compute the specified run; exactly one response, with the millivolts of the cells read |
| `Calibration.AbsoluteRejectedIff` | Firmware/src/calibration.c:785-853 | with an absolute method, whatever flash does, a run is rejected if and only if the fraction is above 100 or fraction times pressure is at least 255000 |
| `Calibration.AbsoluteRunCalibrates` | Firmware/src/calibration.c:785-853 | after an OK run every configured cell was read, and is within 1e-5 of a coefficient in its envelope that turns the sample read into t centibar, where 1000 t <= fraction times pressure < 1000 (t + 1) |
| `Calibration.ReferenceRunCalibrates` | Firmware/src/calibration.c:711-766 | against a digital reference: rejected exactly for a fraction above 100 or a reference that is missing, unhealthy or without a pressure from 1 to 65535 mbar; an OK run calibrates the analog cells to its PPO2 and keeps the others |
| `Calibration.AcceptedIff` | Firmware/src/oxygen_cell_math.c:417-527 | a reading is accepted if and only if some coefficient in the envelope turns it into the target; a refusal is a failure if the sample is too small to divide by, and out of range otherwise |
| `Calibration.RawCountsAreNearest` | Firmware/src/calibration.c:262-263 | the counts recovered from a channel's millivolts are the nearest ones, up to full scale |
| `Calibration.Calibrator.StoreSave` | Firmware/src/calibration_store.c:132-151 | write then reload: only the saved key changes in flash, and the cache follows what the reload delivers |
| `Calibration.Calibrator.ValidateAndSave` | Firmware/src/calibration.c:579-623 | a negative coefficient touches nothing; else save, reload and compare |
| `Calibration.Calibrator.CalibrateCells` | Firmware/src/calibration.c:801-809 | the loop goes on after a failure and the last failing cell decides |
| `Calibration.CellsOkIff` | Firmware/src/calibration.c:579-658 | a run over the cells ends OK if and only if every cell's save reports success and reads back within 1e-5, and then the store holds, cell by cell, what flash kept |
| `Calibration.CellsKeepRest` | Firmware/src/calibration.c:785-853 | cells that are not saved are kept, whatever flash does |
| `Calibration.OkMeansInFlashIff` | Firmware/src/calibration.c:602-619 | every OK outcome of a cell's save leaves its coefficient in flash if and only if the value read back before was not already within 1e-5 of it |
| `Calibration.OkRunIsCached` | Firmware/src/calibration.c:973-1141 | an OK run has every saved cell read back within 1e-5 of its coefficient, also after a reload, and has kept every other cell |
| `Calibration.OkRunIsInFlashIff` | Firmware/src/calibration.c:973-1141 | every OK run leaves every coefficient in flash if and only if no cell already read back near its new one, or the run cannot succeed anyway |
| `Calibration.RolledBackIff` | Firmware/src/calibration.c:1067-1080 | when every rollback save reports success, every cell reads back its starting coefficient if and only if each save left it in flash, or left no key while the cache still read it |
| `Calibration.FailedRunIsRolledBackIff` | Firmware/src/calibration.c:973-1141 | the same for a whole failed run; cells that are not configured are kept in any case |
| `Calibration.HonestRollback` | Firmware/src/calibration.c:1067-1080 | rollback saves that do what they report restore every starting coefficient |
| `Calibration.RejectedRunCanLose` | Firmware/src/calibration.c:994-1005 | even a request rejected at once can lose a coefficient although every rollback save reports success |
| `Calibration.HonestRun` | Firmware/src/calibration.c:1015-1058 | on a store that does what it says, the request and the readings decide the result |
| `Calibration.AnalogReadsBack` | Firmware/src/oxygen_cell_math.c:417-441 | an accepted coefficient turns the same counts into the target |
| `Calibration.DiveO2ReadsBack` | Firmware/src/oxygen_cell_math.c:456-489 | an accepted coefficient turns the same sample into the target |
| `Calibration.O2SReadsBack` | Firmware/src/oxygen_cell_math.c:504-527 | an accepted coefficient turns the same sample into the target |
| `PostGate.Gate.RunState` | Firmware/src/firmware_confirm.c:322-408 | a tick looks at the check, then the overall deadline, then the state's budget |
| `PostGate.Gate.RunPostSequence` | Firmware/src/firmware_confirm.c:499-513 | ticks until the first terminal state |
| `PostGate.RunInv` | Firmware/src/firmware_confirm.c:98-102 | in every run the mask in the k-th waiting state is exactly the first k bits, and confirming and rebooting exclude each other |
| `PostGate.ConfirmedAfterAllChecks` | Firmware/src/firmware_confirm.c:322-437 | the image is confirmed only after, at strictly increasing ticks, cells alive, consensus alive, three more PPO2 messages sent, the handset heard and the solenoid alive |
| `PostGate.RebootHasCause` | Firmware/src/firmware_confirm.c:254-408 | a run reboots only if at its last tick the check it stood at did not hold and the overall deadline was over, or else the budget of that check |
| `PostGate.RunEnds` | Firmware/src/firmware_confirm.c:499-513 | with ticks 50 ms apart every run ends within ceil(deadline/50) + 5 ticks |
| `PostGate.HealthyIsConfirmed` | Firmware/src/firmware_confirm.c:322-408 | if the checks hold in turn the image is confirmed at the fifth tick, however late |
| `PostGate.Firmware.Init` | Firmware/src/firmware_confirm.c:555-610 | silent and deferred self-tests publish the confirmed state without a write; otherwise the self-test runs |
| `PostGate.ConfirmedStateIsTrueIff` | Firmware/src/firmware_confirm.c:412-437 | on every boot that ends in the confirmed state, the image is confirmed if and only if it was at boot, or the self-test ran and the write at its last tick succeeded |
| `PostGate.ConfirmedStateIsTrustedIff` | Firmware/src/firmware_confirm.c:555-610 | on all boots the confirmed state means a confirmed image if and only if the image was confirmed to begin with |
| `OptionBytes.Head.CheckAndApply` | Firmware/src/option_bytes.c:185-255 | guard and launch as a function of register, guard and image state |
| `OptionBytes.LaunchesIff` | Firmware/src/option_bytes.c:185-255 | a boot launches the repair if and only if a field has drifted, the guard is clear, no unconfirmed image would be reset away and the programmer works |
| `OptionBytes.DriftIsRepaired` | Firmware/src/option_bytes.c:212-253 | after power-on, the first boot of a run that sees drift and no unconfirmed image launches |
| `OptionBytes.RepairIsExact` | Firmware/src/option_bytes.c:131-183 | exactly the drifted fields are requested; applied, all three are right and no other bit changes |
| `OptionBytes.LaunchesAreSeparated` | Firmware/src/option_bytes.c:212-253 | from arbitrary retained memory, between two launches some boot saw all fields correct |
| `OptionBytes.NoBootLoop` | Firmware/src/option_bytes.c:80-97 | if writes never take effect, at most one reset per power cycle |
| `OptionBytes.RepairConverges` | Firmware/src/option_bytes.c:248-253 | a write that takes effect is followed by a quiet boot that re-arms the module |
| `I2cBus.ClassifyLines` | Firmware/src/i2c_bus_lock.c:164-218 | the polling loop returns the first decision within the time allowed |
| `I2cBus.DecisionHasEvidence` | Firmware/src/i2c_bus_lock.c:164-218 | SDA-stuck needs an unbroken 25 ms of SCL high and SDA low; likewise SCL-stuck and idle |
| `I2cBus.TrafficIsNotStuck` | Firmware/src/i2c_bus_lock.c:159-163 | lines whose samples change within any 25 ms are classified neither as a stuck SDA nor as a stuck SCL |
| `I2cBus.SteadyLinesAreFound` | Firmware/src/i2c_bus_lock.c:185-206 | lines steady from the first poll on are found once a poll in time sees enough of it: 3 ms of both high for idle, 25 ms otherwise for a stuck SCL or else SDA |
| `I2cBus.WaitQuiet` | Firmware/src/i2c_bus_lock.c:121-157 | success means both lines high and no recent activity throughout at least 3 ms |
| `I2cBus.QuietIsFound` | Firmware/src/i2c_bus_lock.c:121-157 | a bus that falls quiet is found: whatever came before, 3 ms of quiet polls in time end the wait with success |
| `I2cBus.Bus.LockQuiet` | Firmware/src/i2c_bus_lock.c:263-274 | the mutex is held afterwards exactly on success |
| `I2cBus.Bus.Recover` | Firmware/src/i2c_bus_lock.c:286-324 | the bus is clocked only if SDA was classified as stuck, under the mutex, which is released on every path |
| `I2cBus.Bus.Transact` | Firmware/src/i2c_bus_lock.c:347-382 | tries end at the first result that is not retryable, with one more after a recovery that worked; at most attempts + 1 transfers, all under the mutex, which is released on every path; a transfer succeeds exactly once if the call reports success and never otherwise |
| `I2cBus.TransactDecides` | Firmware/src/i2c_bus_lock.c:326-382 | exactly busy, again, timed out and I/O errors are tried again: the first other result decides; if there is none, the try after a recovery that worked does, or else the last error stands |
| `DiveO2Framing.Receiver.FeedRx` | Firmware/src/oxygen_cell_diveo2.c:582-609 | line, frames and the whole message buffer follow the byte-wise specification, all writes in bounds |
| `DiveO2Framing.FeedChunks` | Firmware/src/oxygen_cell_diveo2.c:582-609 | feeding two pieces equals feeding their concatenation |
| `DiveO2Framing.ChunkingIsIrrelevant` | Firmware/src/oxygen_cell_diveo2.c:582-609 | frames and leftover depend only on the concatenated bytes |
| `DiveO2Framing.LineFits` | Firmware/src/oxygen_cell_diveo2.c:602-607 | the line always leaves room for its terminator |
| `DiveO2Framing.FramesAreLines` | Firmware/src/oxygen_cell_diveo2.c:591-601 | if every line is at most 85 bytes the frames are exactly the non-empty CR/LF-separated lines |
| `DiveO2Framing.OverrunRestarts` | Firmware/src/oxygen_cell_diveo2.c:604-607 | an over-long line is dropped with the byte that overran it |
| `DiveO2Framing.CleanedFromFrame` | Firmware/src/oxygen_cell_diveo2.c:205-238 | a frame with a byte other than NUL is cleaned independently of the rest of the buffer |
| `DiveO2Framing.MessageDependsOnFrameIff` | Firmware/src/oxygen_cell_diveo2.c:205-238 | whatever frames came before, the message depends on the last frame alone if and only if that is not all NULs or at least 84 bytes long |
| `DiveO2Framing.EveryHistoryIsSent` | Firmware/src/oxygen_cell_diveo2.c:582-609 | every sequence of non-empty lines that fit is delivered for some bytes |
| `DiveO2Parse.OldFrameReturns` | Firmware/src/oxygen_cell_diveo2.c:205-238 | noise before a measurement and then a NUL line deliver that measurement |
| `DiveO2Parse.ParseRendered` | Firmware/src/oxygen_cell_diveo2.c:276-292 | a decimal number is read back if and only if it fits 32 bits, and saturates otherwise |
| `DiveO2Parse.WhiteSpaceIsSkipped` | Firmware/src/oxygen_cell_diveo2.c:276-292 | white space in front of a number changes nothing |
| `DiveO2Parse.ParsedIsWritten` | Firmware/src/oxygen_cell_diveo2.c:276-292 | conversely an accepted token is white space, at most one sign and digits to its end, and has their value, saturated |
| `DiveO2Parse.SeverityIsSafe` | Firmware/src/oxygen_cell_diveo2.c:162-192 | flag by flag: the five error flags fail the cell, else the four warning flags degrade it, else any code but zero fails it |
| `DiveO2Parse.HealthyCodeIff` | Firmware/src/oxygen_cell_diveo2.c:162-192 | an error field reads as healthy if and only if it is a multiple of 65536, zero or not |
| `DiveO2Parse.HighCodeReadsHealthy` | Firmware/src/oxygen_cell_diveo2.c:838-852 | a received frame with error code 65536 is valid, keeps the code in the sample and leaves the cell healthy |
| `DiveO2Parse.TokensOfSpaced` | Firmware/src/oxygen_cell_diveo2.c:395-404 | tokens separated by spaces are found again |
| `DiveO2Parse.FramesReadBack` | Firmware/src/oxygen_cell_diveo2.c:382-512 | every detailed and simple frame of either family parses to the values it was rendered from |
| `DiveO2Parse.AcceptedIsNumeric` | Firmware/src/oxygen_cell_diveo2.c:382-512 | conversely only "#", a family byte and RAW or OXY are accepted, with 8 or 3 tokens that read as the values |
| `DiveO2Parse.DetailedSample` | Firmware/src/oxygen_cell_diveo2.c:481-489 | the sample's fields are the frame's values in the order sent |
| `DiveO2Parse.SentIsParsed` | Firmware/src/oxygen_cell_diveo2.c:449-609 | a detailed frame that fits, sent with a CR, is delivered and parses to its values whatever was in the buffer |
| `DiveO2Parse.Cell.ProcessRx` | Firmware/src/oxygen_cell_diveo2.c:889-942 | a rejected frame never changes sample, timestamp or family, and fails the cell exactly if it has a measurement header; an accepted one sets all fields |
| `DiveO2Parse.FamilyIsLatchedIff` | Firmware/src/oxygen_cell_diveo2.c:355-370 | a measurement names its family if and only if no space precedes the header |
| `Telemetry.Walk` | Firmware/scripts/telemetry_log.py:150-164 | the cursor loop over a shared buffer yields the records between its cursors |
| `Telemetry.Relocate` | Firmware/scripts/telemetry_log.py:150-164 | equal bytes yield equal records wherever they stand in a buffer |
| `Telemetry.IterRecords` | Firmware/scripts/telemetry_log.py:140-147 | skips the stream header if there is one |
| `Telemetry.WalkEncodedForest` | Firmware/scripts/telemetry_log.py:150-164 | walking the encoding of any forest of records and nested containers yields its in-order flattening |
| `Telemetry.CutYieldsPrefix` | Firmware/scripts/telemetry_log.py:152-157 | cutting any bytes anywhere yields a prefix of the records |
| `Telemetry.CutStreamYieldsPrefix` | Firmware/scripts/telemetry_log.py:140-164 | the same for a stream with or without header |
| `Telemetry.ToBin` | Firmware/scripts/telemetry_log.py:785-812 | writes header, totals and records, and fails exactly if a field or total is out of range |
| `Telemetry.ReadBackIsIdentityIff` | Firmware/scripts/telemetry_log.py:785-812 | reading what tobin wrote returns the rows if and only if none poses as a container or end of stream |
| `Telemetry.RebuildKeepsMeaning` | Firmware/scripts/telemetry_log.py:788-790 | rebuilding any stream without containers changes nothing a reader sees |
| `Telemetry.WalkYieldsPlain` | Firmware/scripts/telemetry_log.py:150-164 | any bytes yield only records that can be written again |
| `TimeAxis.SegmentEpochs` | Firmware/scripts/telemetry_log.py:410-438 | each epoch has the number, least and greatest timestamp and boot marker of its records, and starts 30 s after the one before ends |
| `TimeAxis.GlobalTimes` | Firmware/scripts/telemetry_log.py:441-451 | each record is shifted by the offset of its epoch |
| `TimeAxis.TimesLieInTheirEpoch` | Firmware/scripts/telemetry_log.py:410-451 | every time lies within the span of the epoch its record was counted in |
| `TimeAxis.EpochsAreApart` | Firmware/scripts/telemetry_log.py:433-451 | records of different epochs keep their order and are at least 30 s apart |
| `TimeAxis.EpochKeepsDistances` | Firmware/scripts/telemetry_log.py:441-451 | within an epoch distances between timestamps are kept |
| `TimeAxis.CountsAddUp` | Firmware/scripts/telemetry_log.py:428-431 | epoch counts sum to the number of records |

## Left out

- IEEE float rounding: reals throughout; values at the edge of a comparison may differ.
- Null arguments and missing backends, which the code rejects at the door.
- `error_histogram_clear`, and counts that arrive while a save clears the dirty flag.
- `wcs.py` totals on cyclic graphs (only termination and the marks are claimed), its file parsing, and Python's by-value comparison of nodes (the model compares identities).
- FactoryImage.Unit.RestoreToSlot1: the trailer page itself may hold anything, because staging erases and rewrites it.
- FactoryImage.Unit.StreamImage: offsets are unbounded, so a partition within one chunk of 4 GiB is not covered.
- FactoryImage.SizeIsRightIff: backups within 64 KiB of 4 GiB are excluded, because there the length itself may wrap.
- PidControl.FiringIsWithinLimits: cycles of zero length (a division by zero), and slices of 2^31 microseconds or more, which do not fit the `long` of the target, are excluded, because the conversions are then undefined.
- PidControl.CycleAddsUpIff: low pressures whose stretched slice reaches 2^31 microseconds are excluded, because the conversion is then undefined.
- Calibration.Calibrator.Run: settle and flush delays, solenoid pulses, the setpoint suppression and the acquire/release guard around a run are not modelled; nor is the pressure and fO2 that a digital-reference run reports back.
- Calibration: the raw sample of DiveO2 and O2S cells is recovered with the default coefficient, so nothing is claimed about the reading after recalibrating a cell with another active one; the cast of counts beyond 16 bits, undefined in C, is taken to wrap.
- I2cBus.TrafficIsNotStuck: a line that toggles between two polls without being seen is not covered, because the code sees samples only.
- I2cBus.Bus.Transact: back-off delays and other threads' use of the mutex are not modelled; polls are given as a trace, and a trace that ends counts as a timeout.
- DiveO2Parse.Cell.ProcessRx: `strtol` is taken with the 32-bit `long` of the target; detection, polling, broadcast switching and publishing are not modelled, nor a frame that arrives while the previous one is being parsed.
- TimeAxis.SegmentEpochs: per-type counters and the decoding of the boot payload are left out.
- Telemetry.ToBin: reading the CSV is left out; rows are given.
- PostGate: each tick carries its own clock readings, and the subsystem predicates behind the checks are inputs.
- The JavaScript stacks, `ppo2_autotune.c`, drivers, alarms, heartbeat, boot history, tank pressure and power arithmetic: plumbing, or easier than what is here.
