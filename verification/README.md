# Verified model of the LTE subframe pipeline

A model, in Dafny, of how an LTE base station built from this repository keeps time and hands subframes on: the
radio unit (`oai/executables/lte-ru.c`), its barrier and mailboxes towards L1 (`oai/executables/lte-enb.c`), and
three small state machines beside it (slot recovery in `nr-gnb.c`, handover counting in `ran.py`, job polling in
`cls_cluster.py`). `dafny verify dfyconfig.toml` checks all of it.

What the source updates in place is a class here whose methods are proved against functions on values; threads that
share state are state machines whose runs are all interleavings of their locked regions. The results are then
proved of those functions and machines, for every input and every run.

| file | models |
|---|---|
| `SubframeTime.dfy` | frame and subframe numbers, C's truncating division, the `sf_ahead` look-ahead |
| `Tdd.dfy` | `subframe_select` and Table 4.2-2 of 3GPP TS 36.211 |
| `Bits.dfy` | bit masks in integers and the numeric tests made on them |
| `Clock.dfy` | the receive clock: drift, frame resynch, the exit checks, whole runs |
| `Burst.dfy` | burst flags and sample windows of the writes of `tx_rf` |
| `LateControl.dfy` | the `late_control` fail-safe, shared by two threads without a lock |
| `RadioUnit.dfy` | `rx_rf`, the counters of `ru_thread`, `eNB_top` and `tx_rf` on the fields they update; whole single-thread runs |
| `Reassembly.dfy` | `fh_if4p5_south_in` with its ten mask slots |
| `Barrier.dfy` | `wakeup_L1s` with its ten masks |
| `RxMailbox.dfy` | `wakeup_rxtx` and `L1_thread`: drop when busy |
| `TxMailbox.dfy` | `wakeup_tx` and `L1_thread_tx`: block when busy |
| `TxUnwrap.dfy` | transmit timestamps of `fh_if4p5_north_asynch_in` |
| `DownlinkFronthaul.dfy` | `ru_thread_asynch_rxtx` with `fh_if4p5_north_asynch_in`: collecting symbols into subframes |
| `Antennas.dfy` | antenna mapping of `init_eNB_afterRU` |
| `NrSlot.dfy` | absolute slot number in the gNB's `rx_func` |
| `X2Handover.dfy` | X2 handover counting in `AnalyzeLogFile_eNB` |
| `JobPolling.dfy` | `Cluster._wait_build_end` |

## Where the code does not do what one would expect

Each of these is a theorem that says exactly when the code does.

- A frame resynch leads straight into the exit checks of `rx_rf` when its target is not below 1024, or when the
  slip of the read, with ten more subframes after the last subframe of a frame, is not whole 1024-frame cycles. A
  drift that stays within the subframe is survived (`Clock.ResynchExact`). Without drift this means: when the
  subframe before was the last of its frame (`Clock.ResynchUndrifted`; met in a run, `Clock.ResynchAtFrameEnd`).
  Negative receive time is caught by the next pass at the latest, unless that resynchs again
  (`Clock.ResynchNegative`, `Clock.NegativeIsCaught`). Whole runs, with any drift and any resynchs, are
  `Clock.RunWithResynch`.
- On the first read the sum of receive time and offset is the hardware time only if the offset was zero before
  (`Clock.HardwareTime`).
- The look-ahead carries one frame at most and does not look back: it is right for an `sf_ahead` of 0 to 10
  (`SubframeTime.LookAheadRange`).
- The burst flags form whole bursts only when the radio does not start right after a downlink subframe; with FDD no
  START is ever sent (`Burst.BurstsExactly`).
- `subframe_select` knows TDD configurations 1, 3, 4 and 5 and stops the program for 0, 2 and 6, which the standard
  also defines (`Tdd.SelectFollowsTable`).
- A fronthaul packet from outside the ten-subframe window lands in a slot of another
  subframe (`Reassembly.ReceiveExact`; over whole receptions `Reassembly.SlotsAlwaysHold`); a tick from ten subframes ahead makes the receiver return a subframe of which
  nothing has come (`Reassembly.TooEarly`).
- A radio unit that gets more than ten subframes ahead loses an arrival
  (`Barrier.TenAheadIsTheLimit`; over whole interleavings `Barrier.BitsAlwaysExact`).
- A lost frame-0/subframe-0 sets all later transmit timestamps one cycle too low, and the cycle counter is an `int`
  that overflows after 2^21 cycles (`TxUnwrap.SpacedExactly`, `TxUnwrap.CounterLimit`).
- Dividing by the average slot length finds the slot exactly when the average is whole and the first slot is not too
  long (`NrSlot.RecoveredExactly`).
- The asynchronous receiver of the downlink fronthaul waits for the number of symbols of the subframe it expects. When
  subframes are lost and a special one comes instead of a normal one, or the other way round, calls no longer take one
  subframe each (`DownlinkFronthaul.AsynchProc.Receive`, `DownlinkFronthaul.HarmlessLoss`); in TDD the loss of a
  subframe 0 alone is such a case (`DownlinkFronthaul.SubframeZeroLost`). As the loop tests for equality with a mask
  that only grows, it hangs for good once a symbol has come that is not due (`DownlinkFronthaul.HangsFrom`).
- The handover machine follows one procedure at a time and ignores what begins meanwhile. No completed procedure is
  missed, where any two with different first lines count as two, if and only if each begins on a line where the
  machine, idle, takes up a completed one (`X2Handover.OverlappingCountedExactly`); two handovers at once are counted
  as one (`X2Handover.OverlappingMissed`). When no line may serve two procedures the condition is enough, but more than
  needed: a request may come twice (`X2Handover.RepeatedRequest`).
  For procedures that do not overlap: nothing is missed, at any line, if and only if the machine completes a
  handover before any procedure that it ignored has ended (`X2Handover.CountedInFullExactly`), in particular when
  it ignores none (`X2Handover.NoneIgnoredAllCounted`). A log of both kinds in which one is missed is
  `X2Handover.MixedLogMisses`.
- Removing from the list under iteration skips every other completed job, so that n jobs take floor(log2 n) + 1 polls
  (`JobPolling.SucceedsExactly`). With a check interval of zero the wait need not end (`JobPolling.ZeroInterval`).

## Model

| member | source | states |
|---|---|---|
| SubframeTime.Truncates | oai/executables/lte-ru.c:641-642 | C's division: the remainder has the sign of the dividend and is smaller than the divisor |
| SubframeTime.DecodeAt | oai/executables/lte-ru.c:641-642 | the numbers decoded with truncating division and `& 1023` are frame and subframe of the index the timestamp lies in |
| SubframeTime.NextAt | oai/executables/lte-ru.c:1733-1739 | the counters of `ru_thread` step through consecutive subframes, across the 1024-frame wrap |
| SubframeTime.LookAhead | oai/executables/lte-ru.c:651-653 | for every time >= 0 and 0 <= sf_ahead <= 10 the incremental transmit frame and subframe are the decoding of the transmit timestamp |
| SubframeTime.LookAheadRange | oai/executables/lte-enb.c:459-463 | it is right at every subframe if and only if sf_ahead is 0..10 (or a number of whole cycles above 10) |
| Tdd.SelectFollowsTable | oai/openair1/SCHED/phy_procedures_lte_common.c:753-825 | where it returns it agrees with Table 4.2-2 of 3GPP TS 36.211; it returns exactly for FDD and configurations 1, 3, 4, 5 |
| Clock.PassKeepsStep | oai/executables/lte-ru.c:618-695 | without resynch, whatever the hardware timestamp, a pass advances time by one subframe and keeps counters and timestamp in agreement |
| Clock.ClockAgreement | oai/executables/lte-ru.c:1609-1742 | for every sequence of hardware timestamps, after k+1 reads the time is k subframes, the counters are those of subframe k, and no exit check was taken |
| Clock.HardwareTime | oai/executables/lte-ru.c:618-639 | after every pass but the first, hardware time is receive time plus offset, drift and resynch included; on the first exactly when the offset was zero |
| Clock.FrameSamplesWrap | oai/executables/lte-ru.c:611-612 | the samples of a frame difference are computed modulo 2^32 |
| Clock.ResynchOffsetExact | oai/executables/lte-ru.c:608-612 | for frame numbers the 32-bit product does not wrap: the offset moves by exactly the frames skipped, up or down |
| Clock.ResynchExact | oai/executables/lte-ru.c:608-695 | with non-negative receive time a resynch, drifting or not, passes the exit checks if and only if the target is a frame number and the slip of the read, plus ten at the end of a frame, is whole cycles |
| Clock.ResynchNegative | oai/executables/lte-ru.c:608-695 | with negative receive time (only possible with drift), where division truncates upwards: exactly when it passes |
| Clock.NegativeIsCaught | oai/executables/lte-ru.c:681-695 | a pass that gets through with negative receive time exits on the next pass without resynch |
| Clock.ResynchLands | oai/executables/lte-ru.c:608-695 | an undrifted resynch not at the end of a frame lands on the target frame, one subframe on, at non-negative time |
| Clock.ResynchUndrifted | oai/executables/lte-ru.c:608-695 | without drift: it survives if and only if the target is below 1024 and the previous subframe was not 9 |
| Clock.ResynchAtFrameEnd | oai/executables/lte-ru.c:608-695 | after any first frame of reads, an undrifted resynch to any target exits |
| Clock.RunWithResynch | oai/executables/lte-ru.c:590-695 | whole runs with any drift and any resynchs, receive time of either sign, avoid the exit checks if and only if every read is one the clock survives: without resynch, time not negative; with one, a frame number as target and a receive time whole cycles from its next subframe |
| Clock.SurvivesIsWholeCycles | oai/executables/lte-ru.c:608-695 | for a clock in step and non-negative time these are the resynchs to a frame number whose slip makes whole cycles |
| Burst.PatternOrder | oai/openair1/SCHED/phy_procedures_lte_common.c:753-825 | in every pattern downlink is followed by downlink or special, special by uplink, uplink never by special |
| Burst.FlagsBracket | oai/executables/lte-ru.c:722-752 | for every pattern and any stretch of subframes the flags are (START MIDDLE* END)*, a burst being open exactly after downlink |
| Burst.BurstsExactly | oai/executables/lte-ru.c:722-752 | all flags from subframe n on form whole bursts if and only if the subframe before n was not downlink; starting at the first uplink is enough |
| Burst.WindowsDisjoint | oai/executables/lte-ru.c:802-804 | at nominal times the sample windows of any two subframes written do not overlap, given the special part and the extension fit a subframe; `RadioUnit.RadioUnit.SingleThreadRun` has the real times |
| Burst.ExtensionIs | oai/executables/lte-ru.c:743-758 | a burst starts early by the most whole eights of samples that sf_extension has; nothing else does |
| Burst.SamplesOfSymbols | oai/executables/lte-ru.c:734-736 | the product for a special subframe is the sum over its symbols, the first with the longer prefix |
| Burst.PlainWriteIs | oai/executables/lte-ru.c:722-804 | every plain write by the types of its subframe and the one before in the standard's table: none for uplink; after uplink START, early by e and longer by e, a whole number of eights with sf_extension - 8 < e <= sf_extension; else on time, a whole subframe with MIDDLE, or a special one's symbols and delay with END |
| LateControl.RecoveryTakesFour | oai/executables/lte-ru.c:763-795 | without a new short read recovery takes exactly four downlink or special calls, sending END_NO_TIME_SPEC, nothing, nothing, START |
| LateControl.CallRecovers | oai/executables/lte-ru.c:763-827 | any whole call keeps that END_NO_TIME_SPEC is followed by another or by START |
| LateControl.UninterruptedCall | oai/executables/lte-ru.c:763-827 | the fine-grained steps of a call that nothing interrupts add up to one whole call |
| LateControl.UninterruptedCalls | oai/executables/lte-ru.c:763-827 | and so do those of any number of such calls |
| LateControl.ShortReadRecovers | oai/executables/lte-ru.c:627-630 | from any state outside `tx_rf` a short read makes the next four calls send END_NO_TIME_SPEC, nothing, nothing, START |
| LateControl.ShortWriteRecovers | oai/executables/lte-ru.c:823-827 | a short write at rest does the same after its own flag |
| LateControl.StepKeepsInv | oai/executables/lte-ru.c:525-533 | every single read or write of `late_control`, by either thread, keeps the recovery invariant |
| LateControl.RunKeepsInv | oai/executables/lte-ru.c:763-827 | and so does every interleaving |
| LateControl.NextWriteIsStart | oai/executables/lte-ru.c:627-630 | in every interleaving of short reads with `tx_rf`, the next write of another kind after END_NO_TIME_SPEC is START |
| RadioUnit.RadioUnit.constructor | oai/executables/lte-ru.c:2190-2203 | a fresh unit: counters at 1023.9, first read pending |
| RadioUnit.RadioUnit.ApplyResynch | oai/executables/lte-ru.c:608-616 | moves offset and frame counter by the pending command and clears it, or changes nothing |
| RadioUnit.RadioUnit.Retime | oai/executables/lte-ru.c:618-639 | without resynch the time is the old one plus a subframe, whatever the hardware says; the offset takes the rest |
| RadioUnit.RadioUnit.CheckCounters | oai/executables/lte-ru.c:681-695 | sets the counters at first, later compares them and exits on disagreement |
| RadioUnit.RadioUnit.RxRf | oai/executables/lte-ru.c:575-708 | the fields after `rx_rf` are those of the clock's closed form; a short read terminates the burst |
| RadioUnit.RadioUnit.RuThreadPass | oai/executables/lte-ru.c:1733-1742 | one pass of the subframe loop is one pass of the clock |
| RadioUnit.RadioUnit.EnbTop | oai/executables/lte-enb.c:457-470 | the transmit time that `eNB_top` hands back is the look-ahead of the receive time |
| RadioUnit.RadioUnit.WrittenFits | oai/executables/lte-ru.c:722-804 | whatever `late_control` is, time and length of a write fit the types of its subframe and the one before |
| RadioUnit.RadioUnit.TxRf | oai/executables/lte-ru.c:711-829 | exactly which write is made (time, length, flag), or none, and the next `late_control`; a write fits its subframe |
| RadioUnit.RadioUnit.SingleThreadReceive | oai/executables/lte-ru.c:644-653 | `rx_rf` and `eNB_top` agree, and their frame and subframe are the decoding of the transmit timestamp |
| RadioUnit.RadioUnit.SingleThreadPass | oai/executables/lte-ru.c:802-804 | after any history of drift and resynch, the write fits the subframe that begins sf_ahead subframes after the hardware time of this read, and is the one late control allows |
| RadioUnit.RadioUnit.OnAirFits | oai/executables/lte-ru.c:722-804 | the write of pass i by the standard's table: none in uplink; time and length from the hardware time of its read plus sf_ahead subframes, early only after uplink; and its flag |
| RadioUnit.RadioUnit.WrittenOnAir | oai/executables/lte-ru.c:722-804 | whatever `late_control` is, a write has the place and length of the plain one of subframe i + sf_ahead; at rest it is that one |
| RadioUnit.RadioUnit.AirWindowsDisjoint | oai/executables/lte-ru.c:802-804 | windows at real hardware times far enough apart do not overlap, whatever the flags and offsets |
| RadioUnit.RadioUnit.PlainFlagsOf | oai/executables/lte-ru.c:722-752 | the flags of plain writes are those of the pattern |
| RadioUnit.RadioUnit.PassRecovers | oai/executables/lte-ru.c:763-827 | a pass with a complete or short write keeps the recovery invariant |
| RadioUnit.RadioUnit.PassAnswers | oai/executables/lte-ru.c:763-827 | with `late_control` at TERMINATE a write ends the burst; a short write that does not end one sets TERMINATE |
| RadioUnit.RadioUnit.AnswersNext | oai/executables/lte-ru.c:627-630 | so a pass keeps that the first write after a short transfer ends the burst |
| RadioUnit.RadioUnit.RunPass | oai/executables/lte-ru.c:1730-1742 | one more pass, resynch command included, keeps what a run keeps |
| RadioUnit.RadioUnit.SingleThreadRun | oai/executables/lte-ru.c:1730-1742 | a whole life with any timestamps, short transfers, and resynchs after the first read: it ends early only as the clock says, never without a resynch; the write of pass i fits subframe i + sf_ahead, timed from the hardware time of read i, early by the whole eights of sf_extension after uplink and not at all elsewhere; the first write after a short read or write ends the burst, and END_NO_TIME_SPEC is followed by START; reads a subframe apart give disjoint windows; with complete transfers the writes are the plain ones and their flags form bursts |
| Reassembly.SymbolsDueByPattern | oai/executables/lte-ru.c:208-211 | the number of symbols waited for, by the standard's table: the uplink ones of a special subframe, all of any other |
| Reassembly.NormalSubframe | oai/executables/lte-ru.c:208-240 | with all symbols due and numbered below symbols_per_tti, completeness means a tick or every symbol |
| Reassembly.CompleteIsArrived | oai/executables/lte-ru.c:505-521 | for what `fh_if4p5_north_out` sends, ticks for TDD subframes that are not uplink and all symbols otherwise, every subframe counts as complete if and only if its tick or its full symbol set has arrived, special subframes included |
| Reassembly.AwaitedHasNotArrived | oai/executables/lte-ru.c:208-240 | then everything has arrived of all subframes before the awaited one, and not of that one |
| Reassembly.ReceiveKeepsSlots | oai/executables/lte-ru.c:222-237 | a packet of the window, early, repeated or not, goes into the slot of its subframe and no other |
| Reassembly.ReceiveExact | oai/executables/lte-ru.c:222-237 | a packet leaves all slots right if and only if it is from the window or repeats what the slot's subframe already has |
| Reassembly.TooEarly | oai/executables/lte-ru.c:222-240 | a tick from ten subframes ahead as the first packet passes the test for a subframe of which nothing came |
| Reassembly.AdvanceKeepsSlots | oai/executables/lte-ru.c:286 | clearing the finished slot hands it to the subframe ten later and leaves early symbols alone |
| Reassembly.AdvanceExact | oai/executables/lte-ru.c:286 | it does so if and only if nothing of that later subframe has come before |
| Reassembly.SlotsAlwaysHold | oai/executables/lte-ru.c:198-290 | over whole receptions: the slots hold exactly their subframes' symbols after every event if and only if every packet is of the window or a repeat and every subframe is returned before anything of the one ten later |
| Reassembly.TestDecides | oai/executables/lte-ru.c:219-240 | the numeric test on the awaited slot holds if and only if the awaited subframe is complete |
| Reassembly.AwaitedUnique | oai/executables/lte-ru.c:198-290 | at any time at most one subframe is the awaited one |
| Reassembly.OneIsAwaited | oai/executables/lte-ru.c:198-290 | whatever has been received, exactly one subframe is awaited |
| Reassembly.Fronthaul.constructor | oai/executables/lte-ru.c:2190-2203 | all ten masks empty, first reception pending |
| Reassembly.Fronthaul.Collect | oai/executables/lte-ru.c:219-244 | the loop ends as soon as the awaited subframe is complete and not before, and the last packet is then of that subframe |
| Reassembly.Fronthaul.Update | oai/executables/lte-ru.c:226-237 | one slot is marked, the others unchanged |
| Reassembly.Fronthaul.Record | oai/executables/lte-ru.c:246-286 | times, counters and `WAIT_RESYNCH` as the mismatch branches leave them, and the slot cleared |
| Reassembly.Fronthaul.RecordAwaited | oai/executables/lte-ru.c:246-286 | after the loop has ended with the awaited subframe: its times are recorded, its slot is handed on, the mismatch branches are dead |
| Reassembly.Fronthaul.SouthIn | oai/executables/lte-ru.c:198-290 | returns the awaited subframe, frees exactly its slot, and records its times; the mismatch branches are dead, so `WAIT_RESYNCH` stays as it was |
| Reassembly.Fronthaul.SouthRun | oai/executables/lte-ru.c:1733-1742 | a whole reception in any order inside the window returns consecutive complete subframes, exactly up to the first incomplete one; from a unit that sends as designed, exactly those of which everything has arrived |
| Barrier.L1.constructor | oai/executables/lte-enb.c:870 | ten empty masks: units that run or synchronize are at the start of a round |
| Barrier.L1.MarkArrival | oai/executables/lte-ru.c:1158-1171 | exactly which bits a call sets: the caller's unless it waits, of units in RU_SYNC, and of other slaves that wait; and which waits it ends: those counted down to 1, except in subframe 9 |
| Barrier.L1.WakeupL1s | oai/executables/lte-ru.c:1131-1230 | L1 is woken if and only if every bit is set and the caller does not wait; then the mask is empty, else it holds exactly the old and new bits |
| Barrier.L1.Join | oai/executables/lte-ru.c:1131-1230 | a running unit's call is one arrival at the round's barrier |
| Barrier.L1.Arrival | oai/executables/lte-ru.c:1730-1742 | and so is its whole pass, after which it has the next subframe |
| Barrier.L1.WaitingPass | oai/executables/lte-ru.c:1784-1800 | a pass of a slave that still waits counts down, marks the other idle units, and does not wake L1 |
| Barrier.L1.TakePass | oai/executables/lte-ru.c:1730-1800 | a pass of whichever unit is one step of the round |
| Barrier.L1.WhoIsMarked | oai/executables/lte-ru.c:1158-1168 | a call of a running unit marks it and all units that synchronize or wait; a call of a waiting slave marks the others of these |
| Barrier.Joins | oai/executables/lte-ru.c:1730-1800 | any interleaving of the units' passes, from empty masks, slaves that still wait calling too: the wakes are in subframe order and as many as the slowest of the other units has arrivals |
| Barrier.WaitKeepsExact | oai/executables/lte-ru.c:1158-1193 | a call of a waiting slave keeps every slot exact and wakes nobody |
| Barrier.ArriveKeepsExact | oai/executables/lte-ru.c:1158-1193 | an arrival less than ten ahead keeps every slot exact, and wakes L1 if and only if it is the last for the awaited subframe |
| Barrier.BarrierExact | oai/executables/lte-ru.c:1131-1230 | for every interleaving with no unit more than ten ahead, with any set of units in RU_SYNC or slaves that still wait, the latter calling at any time: the barrier is exact |
| Barrier.ExactBits | oai/executables/lte-ru.c:1166 | bit i of slot s is set if and only if unit i has arrived there once more than the slot was woken |
| Barrier.WakesAreMinimum | oai/executables/lte-ru.c:1188-1193 | wakes of slot s are the least number of arrivals at s over the active units |
| Barrier.TenAheadIsTheLimit | oai/executables/lte-ru.c:1166 | an arrival leaves the bits right if and only if the unit was less than ten ahead |
| Barrier.BitsAlwaysExact | oai/executables/lte-ru.c:1131-1230 | over a whole interleaving: the bits are right after every arrival if and only if no unit ever gets more than ten ahead of the slowest |
| Barrier.ElevenAhead | oai/executables/lte-ru.c:1158-1193 | two units, one arriving eleven times and the other not at all, reach wrong bits |
| RxMailbox.JobDecodes | oai/executables/lte-enb.c:607-611 | what `wakeup_rxtx` stores for a subframe received at time t: its own frame and subframe numbers, the time sf_ahead subframes later, and the decoding of that |
| RxMailbox.L1Proc.constructor | oai/executables/lte-enb.c:858 | the mailbox starts idle |
| RxMailbox.L1Proc.WakeupRxtx | oai/executables/lte-enb.c:586-621 | busy: nothing changes; idle: accepted with the radio unit's frame, subframe and time, field by field |
| RxMailbox.L1Proc.MayStart | oai/openair1/PHY/defs_common.h:1143-1147 | the thread sleeps exactly while the count is negative before shutdown, and leaves its loop exactly on shutdown |
| RxMailbox.L1Proc.ReleaseThread | oai/openair1/PHY/defs_common.h:1172-1180 | releasing makes the mailbox idle and nothing else |
| RxMailbox.StepConserves | oai/executables/lte-enb.c:404-427 | every locked region of every thread conserves work |
| RxMailbox.MailboxConserves | oai/executables/lte-enb.c:576-625 | in every interleaving: count -1 or 0; calls are processed, dropped or the one pending; accepted subframes are processed once, in order, with fields stable from start to release |
| RxMailbox.DropsExactly | oai/executables/lte-enb.c:588-594 | a call is dropped if and only if an accepted subframe is still unprocessed |
| RxMailbox.ProcessedAreReceived | oai/executables/lte-enb.c:404-427 | over every interleaving, what L1 processes are received subframes, in the order of the calls and each at most once, with their own numbers and transmit times from start to release |
| TxMailbox.UplinkByPattern | oai/executables/lte-enb.c:550 | the calls that return at once are those for uplink subframes of the standard's table |
| TxMailbox.L1ProcTx.constructor | oai/executables/lte-enb.c:859 | the slot starts empty |
| TxMailbox.L1ProcTx.SendTest | oai/executables/lte-enb.c:551-570 | stores exactly when the slot is free |
| TxMailbox.L1ProcTx.ReceiveTest | oai/executables/lte-enb.c:325-327 | the transmit thread sleeps exactly when the slot is empty before shutdown, and stops exactly on shutdown |
| TxMailbox.L1ProcTx.Finish | oai/executables/lte-enb.c:341-352 | passes on the job it has processed, and frees the slot |
| TxMailbox.StepKeepsQueue | oai/executables/lte-enb.c:322-356 | every step keeps the one-slot queue |
| TxMailbox.HandOver | oai/executables/lte-enb.c:540-573 | in every interleaving with spurious wake-ups: what is done is a prefix of what was handed over, at most one behind, unchanged while processed, and never uplink in the standard's table |
| TxMailbox.NeverStuck | oai/executables/lte-enb.c:554-569 | no wake-up is lost: before shutdown, with a subframe in a call or in the slot, some thread can step |
| TxMailbox.WorkShrinks | oai/executables/lte-enb.c:322-356 | every such step leaves less to do |
| TxMailbox.OwnStepsEnd | oai/executables/lte-enb.c:322-356 | so the threads by themselves make no more than Work(s) steps |
| TxMailbox.HandOverEnds | oai/executables/lte-enb.c:540-573 | and when they can make no more before shutdown, every call that is not uplink has been handed over and everything handed over is done |
| TxMailbox.Shutdown | oai/executables/lte-enb.c:322-327 | once oai_exit is set the transmit thread finishes at most what it is processing, and ends at its next test or completion |
| DownlinkFronthaul.AsynchProc.constructor | oai/executables/lte-ru.c:2199 | the cycle counter starts at zero |
| DownlinkFronthaul.AsynchProc.Complete | oai/executables/lte-ru.c:466-472 | counter and timestamp after a subframe, with `int` and `uint64_t` wrap-around |
| DownlinkFronthaul.DlDueByPattern | oai/executables/lte-ru.c:426-450 | the number of symbols waited for, by the standard's table: the downlink ones of a special subframe, all of any other and in FDD |
| DownlinkFronthaul.BlockSymbols | oai/executables/lte-ru.c:426-462 | the packets of a subframe hold exactly those symbols |
| DownlinkFronthaul.CallEnds | oai/executables/lte-ru.c:459-462 | a call ends with the first packet after which exactly those symbols of the expected subframe have come |
| DownlinkFronthaul.MaskFull | oai/executables/lte-ru.c:459-462 | the test of the loop holds if and only if exactly the symbols due have come |
| DownlinkFronthaul.HangsFrom | oai/executables/lte-ru.c:459-462 | once a symbol at or above the number due is in, no later packet ends the call |
| DownlinkFronthaul.BlockEnds | oai/executables/lte-ru.c:426-462 | the packets of a subframe, in any order and with repetitions, end the call with the last of them if and only if the number waited for is its own |
| DownlinkFronthaul.HarmlessLoss | oai/executables/lte-ru.c:426-450 | a subframe is taken for one with as many symbols if and only if it and the one expected are both special or both not, or there is no difference |
| DownlinkFronthaul.SubframeZeroLost | oai/executables/lte-ru.c:426-450 | in TDD the loss of a subframe 0 alone makes special subframe 1 be taken for a longer one |
| DownlinkFronthaul.AsynchProc.Collect | oai/executables/lte-ru.c:417-462 | for any packets the call ends with the first one after which exactly the symbols due have come, or never |
| DownlinkFronthaul.AsynchProc.Receive | oai/executables/lte-ru.c:855-896 | a whole reception, packet by packet, whatever whole subframes were lost: calls take one subframe each if and only if each has as many symbols as the one expected; then the timestamps are those of the run, spaced like the subframes if and only if no start of a cycle was lost |
| DownlinkFronthaul.EverySentAsExpected | oai/executables/lte-ru.c:426-450 | when every subframe sent is delivered, each is the one expected |
| DownlinkFronthaul.EverySentMissesNone | oai/executables/lte-ru.c:470 | and no frame-0/subframe-0 is missed, although uplink subframes are skipped |
| TxUnwrap.CounterCounts | oai/executables/lte-ru.c:470 | below 2^21 cycles the counter is 1024 times the cycle starts received |
| TxUnwrap.StampIs | oai/executables/lte-ru.c:472 | the timestamp is the plain product, off by the cycles that counter is off |
| TxUnwrap.SpacedExactly | oai/executables/lte-ru.c:466-472 | for in-order subframes, skips allowed, timestamps are spaced like the subframes if and only if no frame-0/subframe-0 in between was missed |
| TxUnwrap.StampsRise | oai/executables/lte-ru.c:466-472 | and then they rise strictly across every wrap |
| TxUnwrap.CounterLimit | oai/executables/lte-ru.c:470 | successive cycle starts are one cycle apart if and only if the counter does not overflow |
| Antennas.IndexInOrder | oai/executables/lte-enb.c:1175-1181 | eNB antennas are in order: those of a unit one after the other, then the next unit's |
| Antennas.Bijection | oai/executables/lte-enb.c:1165-1182 | the flattening is a bijection from the units' antennas to the indices below the total |
| Antennas.ENB.constructor | oai/executables/lte-enb.c:1155-1161 | six arrays of 64 entries of their own |
| Antennas.ENB.CountAntennas | oai/executables/lte-enb.c:1149-1153 | the count is the sum over the units |
| Antennas.ENB.Attach | oai/executables/lte-enb.c:1176-1181 | one antenna is attached in all arrays, and every other entry of each array stays |
| Antennas.ENB.MapAntennas | oai/executables/lte-enb.c:1149-1194 | eNB antenna (sum of earlier nb_rx) + i points to antenna i of its unit in all arrays, every entry above stays in each array, and the running index ends at the count |
| NrSlot.AbsoluteSlot | oai/executables/nr-gnb.c:208-215 | the loop's result is the timestamp divided by the averaged slot length |
| NrSlot.AverageIs | oai/executables/nr-gnb.c:208-213 | the average is that of one first slot and the others of half a subframe, rounded down, or in numerology 0 the subframe |
| NrSlot.StartClosed | oai/openair1/PHY/INIT/nr_parms.c:240-250 | the start of slot n in closed form, periods of one long and m-1 short slots |
| NrSlot.StartsAre | oai/openair1/PHY/INIT/nr_parms.c:240-250 | the start of slot n in the lengths of the standard: whole subframes in numerology 0; above, half subframes of one first slot and the others |
| NrSlot.RecoveredExactly | oai/executables/nr-gnb.c:208-215 | every slot number is recovered from its start time if and only if the average is exact and the first slot's excess fits |
| NrSlot.StandardFits | oai/executables/nr-gnb.c:208-215 | it is whenever the first slot is longer by less than an average slot, as in section 5.3.1 of 3GPP TS 38.211 |
| X2Handover.Analyze | oai/ci-scripts/ran.py:862-886 | the loop's counters are those of completed, disjoint chains of the log |
| X2Handover.Counted | oai/ci-scripts/ran.py:862-886 | for every log there are exactly so many completed procedures of either kind, on disjoint lines, messages in order |
| X2Handover.PrefixBounds | oai/ci-scripts/ran.py:862-886 | in every prefix each counter is at most the number of lines with each of its messages |
| X2Handover.InIsGreatest | oai/ci-scripts/ran.py:869-881 | in a log of target handovers no choice of disjoint chains is larger than the counter |
| X2Handover.OutIsGreatest | oai/ci-scripts/ran.py:882-886 | likewise for source handovers |
| X2Handover.OverlappingCountedExactly | oai/ci-scripts/ran.py:862-886 | for every log, overlapping procedures included: no choice of completed procedures with different first lines is larger than the two counters together, if and only if every completed procedure begins on a line where the machine, idle, takes up a completed one |
| X2Handover.OverlappingMissed | oai/ci-scripts/ran.py:862-886 | a log of two target handovers at once, each message on a line of its own, of which one is counted |
| X2Handover.RepeatedRequest | oai/ci-scripts/ran.py:862-868 | a log in which a repeated request begins a completed procedure that is not taken up, while all procedures share the line of the one acknowledgement |
| X2Handover.CountedInFullExactly | oai/ci-scripts/ran.py:862-886 | for procedures that do not overlap: at no line have more of them ended than are counted, if and only if every procedure that begins where the machine does not take it up sees a handover completed before it ends |
| X2Handover.NoneIgnoredAllCounted | oai/ci-scripts/ran.py:862-868 | in any log, of both kinds, in which acknowledgements meet idle or source and requests, without acknowledgement, idle or target, no choice of procedures that do not overlap is larger than the two counters together |
| X2Handover.MixedLogMisses | oai/ci-scripts/ran.py:862-868 | a log of both kinds in which a completed chain is ignored and not counted |
| JobPolling.JobList.PollOnce | oai/ci-scripts/cls_cluster.py:191-196 | the loop over the list it shortens |
| JobPolling.RemovesFirst | oai/ci-scripts/cls_cluster.py:193 | the first occurrence of a completed job is removed, and no other |
| JobPolling.PassFails | oai/ci-scripts/cls_cluster.py:191-196 | a poll fails if and only if a query that it makes shows an error, earlier removals taken into account |
| JobPolling.FirstPoll | oai/ci-scripts/cls_cluster.py:189-203 | an error ends the wait with False in its own poll; without one it succeeds on an empty list, raises on a negative interval, or goes on |
| JobPolling.JobList.WaitBuildEnd | oai/ci-scripts/cls_cluster.py:187-203 | for any timeout and interval, watched for any number of polls: True only with an empty list and every job seen Completed; it raises when it would sleep a negative time; unless the interval is zero it ends within the polls the timeout allows |
| JobPolling.PassRemovesCompleted | oai/ci-scripts/cls_cluster.py:193 | a job that leaves the list was seen Completed in that poll |
| JobPolling.WaitSound | oai/ci-scripts/cls_cluster.py:187-203 | success implies that every job was seen Completed in some poll |
| JobPolling.WaitEnds | oai/ci-scripts/cls_cluster.py:187-203 | a wait with non-zero interval ends after as many polls as the timeout has intervals at the latest |
| JobPolling.ZeroInterval | oai/ci-scripts/cls_cluster.py:187-203 | with interval zero and jobs that neither complete nor fail it never does |
| JobPolling.PassHalves | oai/ci-scripts/cls_cluster.py:191-193 | with all jobs completed a poll leaves floor(n/2) of n |
| JobPolling.PollsAreLog | oai/ci-scripts/cls_cluster.py:187-203 | the polls needed are floor(log2 n) + 1 |
| JobPolling.SucceedsExactly | oai/ci-scripts/cls_cluster.py:187-203 | once all remaining jobs are completed, the wait succeeds if and only if the timeout allows that many polls (and, with a negative interval, one is enough) |
| JobPolling.TwoNeedTwoPolls | oai/ci-scripts/cls_cluster.py:187-203 | two completed jobs are not removed in one poll |

## Left out

- Device and network calls: timestamps, sample counts and packets are arbitrary; buffers, signal processing, logging, tracing and statistics are not part of this model.
- Integer widths: `ts_offset` and `timestamp_rx` (64 bits) and frame counters are unbounded; the 32-bit product of a resynch, the cycle counter and the transmit timestamp of the fronthaul wrap as in C.
- RadioUnit.RadioUnit.TxRf: takes as precondition that the TDD configuration is known and a special subframe sends something; otherwise `AssertFatal` stops the program there.
- The emulated RF and rfsim branches, `PHY_TX_THREAD`, `PRE_SCD_THREAD`, VNF and PNF variants, and the ARM rounding of `sf_extension`.
- X2Handover.CountedInFullExactly: covers procedures whose line intervals do not overlap; overlapping ones are X2Handover.OverlappingCountedExactly.
- X2Handover.OverlappingCountedExactly: tells procedures apart by their first lines; for procedures that share no line at all its condition is sufficient but not necessary (X2Handover.RepeatedRequest), and the exact one is not stated.
- RadioUnit.RadioUnit.SingleThreadRun: takes as precondition that no resynch command is pending at the very first read; `Clock.RunWithResynch` covers that case.
- A `frame_offset` or a counter reset when `ru_thread` leaves and re-enters its subframe loop.
- DownlinkFronthaul.AsynchProc.Receive: is about packets that come subframe by subframe, with losses of whole subframes; single lost packets, and packets out of order across subframes or again after their subframe was complete, are covered only call by call, by DownlinkFronthaul.AsynchProc.Collect. Packets of another type stop the program.
- Stop commands: a stopped reception ends `Reassembly.Fronthaul.Collect`, but nothing is stated of the reception after it.
- Radio units that change state or whose wait ends in mid-round: `Barrier.L1.WakeupL1s` covers any such call, the rounds do not. The wake itself follows the unlock, and the caller arrives again only after it, so later wakes cannot overtake it.
- The synchronization checks between radio units (`check_sync`), which only log.
- The transmit mailbox of the radio units (`wakeup_txfh`, `RU_mask_tx`, `instance_cnt_eNBs`).
- `L1_thread` reads its fields again after `release_thread`: nothing is stated about the arguments of the `wakeup_tx` call that follows.
- The latency of L1 and the fairness of the scheduler: progress is stated as steps that remain possible and finitely many.
- The real-time profiling index that `rx_func` derives from the absolute slot.
- Regular expressions: a log line is the set of patterns it matches, and a job status is whether the listing mentions Completed and Error.
- Sleeping between polls takes no time in the model.
- The rest of the CI scripts, thread creation and shutdown, configuration parsing and headers.
