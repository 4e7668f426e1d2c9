# stf_check, stf_diff and STFAddressRange in Dafny

This project models three parts of the STF trace tools and proves properties of them:

- **stf_check**. This is the consistency checker for STF instruction traces. The model covers:
  - the vector-length test `isVLZero`;
  - the header check;
  - the record loop with its per-thread "previous record" map;
  - every per-record rule: invalid record, decoder failure, missing load or store memory record, odd pc, memory access at address 0 or without attributes, unconditional branch without target, switch to user mode without an exception return;
  - the end-index cutoff;
  - the post-scan feature-flag checks and the inefficient-access summary;
  - the final PA_EQ_0 rewrite of the return code.

  The checker's `ErrorTracker` is modelled twice. `ErrorLedger.Ledger` is a value: each `countError` or `reportError` call is an `Action`, and `Apply` folds a list of actions over a ledger. `ErrorLedger.ErrorTracker` is the class the loop updates in place. Every imperative check method promises that the tracker's new state is `Apply(old state, <the actions of that rule>)`. The lemmas then prove what those actions count and what verdict results.
- **stf_diff**. The model covers three pieces:
  - `getBeginIterator`, which finds where the comparison of a trace starts;
  - `streamingDiff`, which walks two traces with two cursors and counts differences;
  - `extractInstructions`, which fills a vector of instructions for the unified diff. It skips kernel code and keeps only the replayed copy of an instruction that took a page fault.

  A record carries what these loops read: its pc, whether it is kernel code, whether it decodes as a markpoint or a tracepoint, and its `view`. The view is the STFDiffInst compared with `!=`.
- **STFAddressRange**. This is a half-open range `[start, end)` of 64-bit pcs. The model covers its constructor check, `range()`, `contains()` and the comparison operators.

Module layout:

- `ledger.dfy`, module `ErrorLedger`: error codes, return status, the ledger value and the `ErrorTracker` class.
- `stf_records.dfy`, module `StfRecords`: the instruction record as stf_check reads it, the decoder's answers, `IsVLZero`.
- `stf_rules.dfy`, module `StfRules`: every rule as the list of ledger calls it makes, and what each rule counts.
- `stf_check.dfy`, module `StfCheck`: the record loop (`Step`, `Scan`, `Run`) and its imperative version (`CheckTrace`).
- `stf_diff.dfy`, module `StfDiff`: `GetBeginIterator`, `StreamingDiff`, `ExtractInstructions` and their specifications.
- `address_range.dfy`, module `AddressRanges`: `STFAddressRange`.

### Where the model follows the code

- **Rules read the previous record.** The load, store, decoder-failure, branch and user-mode rules all read the previous record of the same thread. This includes the decoder's view of that record's opcode (`decoder.decode(inst_prev.opcode())`, tools/stf_check/stf_check.cpp:184-185). The current record is not used by these rules. The model does the same.
- **The first record is its own predecessor.** The map is seeded with the first record (tools/stf_check/stf_check.cpp:128-137). So the first record is checked against itself, without a thread switch (`StfCheck.FirstRecordIsOwnPredecessor`).
- **A new thread identity is not exempt.** A thread identity seen for the first time gets a default-constructed record from `operator[]`. Its rules are evaluated against that record; they are not suppressed (`StfCheck.PreviousRecord`).
- **Three counters never move.** The physical-address, physical-pc and header-PTE counters are never incremented; the code that would increment them is commented out or disabled. As a result:
  - PTE_HEADER never fires;
  - when the trace claims physical addresses, both "no PAs found" and "no INST PHYS PC found" fire. In continue mode PHYS_ADDR is therefore counted twice (`StfRules.PostScanCounted`). Without -c the first of them halts the run, so PHYS_ADDR is counted once (`StfCheck.FailFastStopsAtFirstPhysAddr`);
  - otherwise PHYS_ADDR is never counted.
- **The PA_EQ_0 rewrite is dead code.** PA_EQ_0 is never counted, so the final rewrite of a PA_EQ_0 return code to RESERVED_NO_ERROR never takes effect (`StfCheck.PaEq0NeverReturned`).

### What the model assumes about ErrorTracker

`ErrorTracker` is defined in `stf_check.hpp`, which is not part of this model. What `stf_check.cpp` shows of it is:

- the call pattern: every rule calls `countError(code)` and then `reportError(code)` (for instance tools/stf_check/stf_check.cpp:166-168);
- the `-i` and `-c` options given to its constructor (tools/stf_check/stf_check.cpp:97-99);
- the exit codes in the comment at tools/stf_check/stf_check.cpp:9-25, with 255 for multiple errors under `-c`.

The rest of its behaviour is the model's assumption, chosen to fit those exit codes:

- `countError` ignores a code suppressed with `-i`.
- Otherwise it increments the counter and fixes the return code at the first counted code.
- In continue-on-error mode, a later distinct code turns the return code into the multiple-errors sentinel.
- In fail-fast mode, a `reportError` on a code that is not suppressed ends the run. The model treats this as process exit: a `halted` flag after which no ledger call has any effect and the record loop stops.

## Model

| member | source | states |
|---|---|---|
| `StfRecords.FirstVl` | tools/stf_check/stf_check.cpp:75-81 | Specification of the operand loop of isVLZero: the scalar value of the first source operand naming the VL CSR, or none when no operand names it. |
| `StfRecords.IsVLZero` | tools/stf_check/stf_check.cpp:73-86 | Specification of isVLZero: the record is a vector record and its first VL source operand has value 0. |
| `StfRecords.FirstVlFound` | tools/stf_check/stf_check.cpp:74-86 | The VL lookup fails exactly when no source operand names the VL CSR. Otherwise it returns the value of the first such operand. |
| `StfRecords.IsVLZeroIff` | tools/stf_check/stf_check.cpp:74-86 | isVLZero holds iff the record is a vector record and its first VL source operand has value 0. |
| `StfRecords.NoVlIsNotZero` | tools/stf_check/stf_check.cpp:74-86 | A non-vector record, or one without a VL operand, is never VL-zero. |
| `StfRecords.LaterVlIgnored` | tools/stf_check/stf_check.cpp:76-82 | Operands after the first VL operand never change the result. |
| `ErrorLedger.Ledger.CountError` | tools/stf_check/stf_check.cpp:166-168 | countError leaves a suppressed code, and every other counter, unchanged. Otherwise it adds one to the code's counter and fixes a RESERVED_NO_ERROR return code to the code. In fail-fast mode it never replaces a code already set. In continue mode, a second distinct code turns the return code into the multiple-errors sentinel; the same code again keeps it. |
| `ErrorLedger.Ledger.ReportError` | tools/stf_check/stf_check.cpp:166-168 | reportError ends the run exactly in fail-fast mode on a code that is not suppressed, and changes nothing else. |
| `ErrorLedger.NewLedger` | tools/stf_check/stf_check.cpp:98-99 | A new tracker has every counter at 0, return code RESERVED_NO_ERROR, the suppressed set and mode given, and is not halted. |
| `ErrorLedger.NewLedgerConsistent` | tools/stf_check/stf_check.cpp:98-99 | A new tracker satisfies the ledger invariant. |
| `ErrorLedger.PerformConsistent` | tools/stf_check/stf_check.cpp:166-168 | One countError or reportError keeps the ledger invariant. Under the invariant, only codes that are not suppressed have counters, and the return code is RESERVED_NO_ERROR iff nothing is counted. A single returned code was counted. The multiple-errors sentinel needs continue mode and two distinct counted codes. |
| `ErrorLedger.ApplyConsistent` | tools/stf_check/stf_check.cpp:164-485 | Every sequence of ledger calls keeps the ledger invariant. |
| `ErrorLedger.ContinueModeVerdict` | tools/stf_check/stf_check.cpp:515-520 | In continue mode, the return code is the multiple-errors sentinel iff two distinct codes were counted. |
| `ErrorLedger.CountsMonotone` | tools/stf_check/stf_check.cpp:164-485 | Counters never decrease. |
| `ErrorLedger.IgnoredNeverCounted` | tools/stf_check/stf_check.cpp:97-98 | A code given with -i is never counted. |
| `ErrorLedger.ContinueModeCounts` | tools/stf_check/stf_check.cpp:99 | In continue mode the run never halts. Each counter grows by exactly the number of countError calls on its code, or by 0 when the code is suppressed. |
| `ErrorLedger.PerformContinueMode` | tools/stf_check/stf_check.cpp:166-168 | In continue mode, one ledger call never halts. It adds 1 to a counter only for a countError on that code when the code is not suppressed. |
| `ErrorLedger.FailFastHalts` | tools/stf_check/stf_check.cpp:166-168 | In fail-fast mode, the run is halted after a sequence of calls iff it was halted before or some reportError named a code that is not suppressed. |
| `ErrorLedger.FailFastKeepsCode` | tools/stf_check/stf_check.cpp:166-168 | In fail-fast mode, a return code once set never changes. |
| `ErrorLedger.IgnoredActionsChangeNothing` | tools/stf_check/stf_check.cpp:97-98 | Calls that only name suppressed codes leave the tracker as it was. |
| `ErrorLedger.FailFastFirstCode` | tools/stf_check/stf_check.cpp:520 | In fail-fast mode, the final return code is the code of the first countError call on a code that is not suppressed. |
| `ErrorLedger.ErrorTracker.constructor` | tools/stf_check/stf_check.cpp:98-99 | The tracker starts as `NewLedger` of the suppressed set and mode. |
| `ErrorLedger.ErrorTracker.CountError` | tools/stf_check/stf_check.cpp:167 | The in-place countError leaves the state the ledger's CountError describes. |
| `ErrorLedger.ErrorTracker.ReportError` | tools/stf_check/stf_check.cpp:168 | The in-place reportError leaves the state the ledger's ReportError describes. |
| `ErrorLedger.ErrorTracker.GetReturnCode` | tools/stf_check/stf_check.cpp:505 | Returns the current return code. |
| `ErrorLedger.ErrorTracker.SetReturnCode` | tools/stf_check/stf_check.cpp:508 | Replaces the return code and nothing else. |
| `ErrorLedger.ErrorTracker.ContinueOnError` | tools/stf_check/stf_check.cpp:496 | Returns the mode given at construction. |
| `ErrorLedger.ErrorTracker.GetErrorCount` | tools/stf_check/stf_check.cpp:498 | Returns the counter of a code, 0 for a code never counted. |
| `StfRules.RuleCounts` | tools/stf_check/stf_check.cpp:166-415 | Each rule counts only its own codes:<br>- INVALID_INST for an invalid record;<br>- DECODER_FAILURE for a failed decode without events;<br>- MISS_MEM plus MISS_MEM_LOAD or MISS_MEM_STR for a missing load or store;<br>- INVALID_PC_16 or INVALID_PC_32 for an odd pc, by opcode width;<br>- UNCOND_BR and SWITCH_USR for their conditions.<br>Each is counted exactly once when its condition holds and never otherwise. |
| `StfRules.EarlyRuleCounts` | tools/stf_check/stf_check.cpp:166-260 | The rules before the cutoff count INVALID_INST, DECODER_FAILURE, MISS_MEM/MISS_MEM_LOAD and MISS_MEM/MISS_MEM_STR exactly when their conditions hold. |
| `StfRules.LateRuleCounts` | tools/stf_check/stf_check.cpp:266-415 | The pc-alignment, branch and user-mode rules count their codes exactly when their conditions hold. |
| `StfRules.StepCountedSplit` | tools/stf_check/stf_check.cpp:164-418 | A record's count of any code is the sum over the rules that apply to it. Past the cutoff only the early rules run, and on a thread switch the branch and user-mode rules do not run. |
| `StfRules.MemActionsCounts` | tools/stf_check/stf_check.cpp:290-308 | The memory loop counts MEM_POINT_TO_ZERO once per access at address 0 and MEM_ATTR once per access with attribute 0, whether or not -d is given, and counts no other code. |
| `StfRules.InvalidInstCounted` | tools/stf_check/stf_check.cpp:166-174 | A record counts INVALID_INST once iff it is invalid, even past the cutoff. |
| `StfRules.PcAlignmentCounted` | tools/stf_check/stf_check.cpp:266-285 | Within the cutoff, an odd pc counts INVALID_PC_16 for a 16-bit opcode and INVALID_PC_32 otherwise. An even pc counts neither. |
| `StfRules.DecoderFailureCounted` | tools/stf_check/stf_check.cpp:195-203 | DECODER_FAILURE is counted iff the previous record's opcode fails to decode and that record has no events. |
| `StfRules.MissingMemoryCounted` | tools/stf_check/stf_check.cpp:205-260 | MISS_MEM_LOAD and MISS_MEM_STR are counted under their conditions, and MISS_MEM is their sum. Atomic stores and VL-zero vector records are exempt. |
| `StfRules.MemoryAccessCounted` | tools/stf_check/stf_check.cpp:287-308 | Within the cutoff, MEM_POINT_TO_ZERO is the number of accesses at address 0 and MEM_ATTR the number with attribute 0. Past the cutoff both are 0. |
| `StfRules.ThreadRulesCounted` | tools/stf_check/stf_check.cpp:386-415 | UNCOND_BR and SWITCH_USR are counted only within the cutoff and without a thread switch, under their conditions on the previous record. |
| `StfRules.StepCountsNoAggregate` | tools/stf_check/stf_check.cpp:164-418 | No per-record rule counts a header, feature-flag, PA or summary code. |
| `StfRules.HeaderActions` | tools/stf_check/stf_check.cpp:142-161 | Specification of the header loop: one HEADER countError and reportError for each trace-info entry whose generator is reserved or cannot be printed, in order. It makes at most one raise per entry. |
| `StfRules.HeaderCounted` | tools/stf_check/stf_check.cpp:142-161 | HEADER is counted once per trace-info record whose generator is reserved or cannot be printed. No other code is counted. |
| `StfRules.PostScanCounted` | tools/stf_check/stf_check.cpp:420-485 | When the post-scan calls all take effect (continue mode):<br>- PHYS_ADDR is counted twice if the trace claims physical addresses, else never;<br>- EMBED_PTE is counted once iff the PTE flag disagrees with the embedded-PTE count;<br>- RV64_INSTS once iff the RV64 flag disagrees with the initial mode;<br>- INEFF_MEM_ACC once iff some record packs tiny accesses;<br>- PTE_HEADER never. |
| `StfRules.PhysAddrCounted` | tools/stf_check/stf_check.cpp:420-446 | With both physical counters at 0, the physical-address check raises PHYS_ADDR twice when the flag is set and not at all otherwise. |
| `StfRules.EmbedPteCounted` | tools/stf_check/stf_check.cpp:454-466 | Helper of `PostScanCounted`: the PTE check raises EMBED_PTE once iff the flag is set with no embedded PTEs, or clear with some. |
| `StfRules.Rv64Counted` | tools/stf_check/stf_check.cpp:468-477 | Helper of `PostScanCounted`: the RV64 check raises RV64_INSTS once iff the flag disagrees with the initial instruction mode. |
| `StfRules.IneffCounted` | tools/stf_check/stf_check.cpp:479-485 | Helper of `PostScanCounted`: the summary check raises INEFF_MEM_ACC once iff the packable-record counter is non-zero. |
| `StfRules.StepActions` | tools/stf_check/stf_check.cpp:164-418 | Specification of one record's checks: the ledger calls of the rules before the cutoff and, unless the record is past the end index, those of the pc, memory, branch and user-mode rules, in source order. |
| `StfRules.PostScanActions` | tools/stf_check/stf_check.cpp:420-485 | Specification of the checks after the scan: a countError and a reportError for each violated flag check and the summary, in source order. |
| `StfRules.CountedRaiseAll` | tools/stf_check/stf_check.cpp:420-485 | Raising a list of codes counts each code as often as it occurs in the list. |
| `StfRules.RaiseAllIgnored` | tools/stf_check/stf_check.cpp:420-485 | Raising only suppressed codes leaves the tracker as it was. |
| `StfRules.FailFastRaiseAll` | tools/stf_check/stf_check.cpp:420-485 | In fail-fast mode, raising a list of codes has the effect of raising only the first code that is not suppressed: its reportError ends the run. |
| `StfRules.FailFastPostScan` | tools/stf_check/stf_check.cpp:420-485 | In fail-fast mode, the first post-scan violation that is not suppressed halts the run. It adds one to its own counter and changes no other counter, and it becomes the return code when none was set. |
| `StfCheck.RaiseError` | tools/stf_check/stf_check.cpp:166-168 | Helper of the rule methods: a countError then a reportError on one code. |
| `StfCheck.RaiseMissing` | tools/stf_check/stf_check.cpp:226-228 | A missing load or store makes a countError(MISS_MEM), then a countError and a reportError on its own code. |
| `StfCheck.CheckHeader` | tools/stf_check/stf_check.cpp:142-161 | The header loop leaves the tracker as the header actions describe. |
| `StfCheck.CheckMemoryAccesses` | tools/stf_check/stf_check.cpp:287-308 | The memory loop leaves the tracker as the memory actions describe. It returns the total access size. |
| `StfCheck.CheckAccess` | tools/stf_check/stf_check.cpp:293-307 | One access: the zero-address check, then the attribute check. |
| `StfCheck.CheckZeroAddress` | tools/stf_check/stf_check.cpp:293-303 | An access at address 0 is counted, and reported only with -d. |
| `StfCheck.CheckValid` | tools/stf_check/stf_check.cpp:166-174 | The invalid-record rule as the tracker sees it. |
| `StfCheck.CheckDecode` | tools/stf_check/stf_check.cpp:195-203 | The decoder-failure rule as the tracker sees it. |
| `StfCheck.CheckLoad` | tools/stf_check/stf_check.cpp:206-232 | The missing-load rule as the tracker sees it. |
| `StfCheck.CheckStore` | tools/stf_check/stf_check.cpp:233-260 | The missing-store rule as the tracker sees it. |
| `StfCheck.CheckPcAlignment` | tools/stf_check/stf_check.cpp:266-285 | The odd-pc rule as the tracker sees it. |
| `StfCheck.CheckThreadRules` | tools/stf_check/stf_check.cpp:388-415 | The branch and user-mode rules, skipped on a thread switch. |
| `StfCheck.CheckEarlyRules` | tools/stf_check/stf_check.cpp:166-260 | The four rules before the cutoff, in order. |
| `StfCheck.CheckLateRules` | tools/stf_check/stf_check.cpp:266-415 | The pc, memory and thread rules in order. It says whether the record packs tiny accesses. |
| `StfCheck.CheckRecord` | tools/stf_check/stf_check.cpp:164-418 | One record: it stops exactly past the end index, and applies exactly the actions of the rules that run. |
| `StfCheck.CheckRecordInContext` | tools/stf_check/stf_check.cpp:176-417 | One loop iteration produces the scan state `Step` describes:<br>- the thread switch and the previous record come from the map;<br>- the record is checked;<br>- the map, the embedded-PTE counter and the packable counter are updated unless the record is past the cutoff. |
| `StfCheck.RaiseIf` | tools/stf_check/stf_check.cpp:420-485 | A violated check makes a countError and a reportError on its code. Otherwise the tracker is unchanged. |
| `StfCheck.CheckPhysAddr` | tools/stf_check/stf_check.cpp:420-446 | The physical-address flag check raises each of its violations on the tracker. |
| `StfCheck.CheckEmbedPte` | tools/stf_check/stf_check.cpp:454-466 | The PTE flag check raises its violation on the tracker. |
| `StfCheck.CheckRv64` | tools/stf_check/stf_check.cpp:468-477 | The RV64 flag check raises its violation on the tracker. |
| `StfCheck.PostScanChecks` | tools/stf_check/stf_check.cpp:420-485 | The post-scan checks raise their violations in order: the physical-address, header-PTE, PTE and RV64 checks, then the summary. |
| `StfCheck.FinishRun` | tools/stf_check/stf_check.cpp:420-520 | The post-scan checks run unless the run halted. Then a PA_EQ_0 return code is rewritten, and the return code is the status. |
| `StfCheck.CheckTrace` | tools/stf_check/stf_check.cpp:88-520 | The whole checker: the returned status and final tracker are exactly `Run` of the configuration, header, trace and decoder. |
| `StfCheck.Seed` | tools/stf_check/stf_check.cpp:128-137 | Specification of the state before the loop: the first record, if any, is stored as the previous record of its identity, and its identity is the previous identity. |
| `StfCheck.Step` | tools/stf_check/stf_check.cpp:164-418 | Specification of one loop iteration: the record's checks run against the previous record of its identity. Past the end index the loop stops. Otherwise the map, the embedded-PTE counter and the packable-record counter are updated. |
| `StfCheck.Scan` | tools/stf_check/stf_check.cpp:164-418 | Specification of the record loop: `Step` over the records in order, until the scan is cut off or halted. |
| `StfCheck.Run` | tools/stf_check/stf_check.cpp:88-520 | Specification of the whole checker: the header check, the record loop, the post-scan checks with the physical and header-PTE counters at 0, then the PA_EQ_0 rewrite. |
| `StfCheck.FailFastRunEndsAtPostScan` | tools/stf_check/stf_check.cpp:420-485 | In fail-fast mode, when the run is still going after the loop, the first post-scan violation that is not suppressed ends it. Its code is counted once more, no other counter changes, and it is the return code when none was set. |
| `StfCheck.FailFastStopsAtFirstPhysAddr` | tools/stf_check/stf_check.cpp:420-428 | Without -c, an empty trace whose flags claim physical addresses, PTEs and RV64 halts at the first PHYS_ADDR. The status is PHYS_ADDR, it is counted once, and nothing else is counted. |
| `StfCheck.ScanPrefixDone` | tools/stf_check/stf_check.cpp:262-264 | Once the scan is cut off or halted, later records change nothing. |
| `StfCheck.LastByIdDomain` | tools/stf_check/stf_check.cpp:417 | The per-thread map holds an identity iff some record so far carries it. |
| `StfCheck.LastByIdLatest` | tools/stf_check/stf_check.cpp:417 | The map sends an identity to the last record carrying it. |
| `StfCheck.ScanRunning` | tools/stf_check/stf_check.cpp:164-418 | A scan still running after record i-1 checked that record in full: it was within the cutoff, was stored in the map, and its identity is the previous identity. |
| `StfCheck.ScanHistory` | tools/stf_check/stf_check.cpp:176-184 | While the scan runs, the map is the last record of each identity, the previous identity is that of the last record, and no record so far was past the cutoff. |
| `StfCheck.ScanThreadMap` | tools/stf_check/stf_check.cpp:417 | While the scan runs, the map is the last record of each identity. |
| `StfCheck.ScanNoCutoff` | tools/stf_check/stf_check.cpp:262-264 | While the scan runs, no record so far was past the end index. |
| `StfCheck.PreviousRecord` | tools/stf_check/stf_check.cpp:176-185 | Record i sees a thread switch iff its identity differs from record i-1's. Its previous record is the last earlier record of its identity, or the default record when there is none. |
| `StfCheck.FirstRecordIsOwnPredecessor` | tools/stf_check/stf_check.cpp:128-137 | The first record is checked against itself, without a thread switch. |
| `StfCheck.ScanKeeps` | tools/stf_check/stf_check.cpp:164-418 | The record loop keeps the ledger invariant, never counts PA_EQ_0, keeps the mode and suppressed set, and never halts in continue mode. |
| `StfCheck.RunKeeps` | tools/stf_check/stf_check.cpp:142-485 | The same holds for header, loop and post-scan checks together. |
| `StfCheck.PaEq0NeverReturned` | tools/stf_check/stf_check.cpp:505-509 | PA_EQ_0 is never counted and never returned, so the rewrite never takes effect. |
| `StfCheck.VerdictOf` | tools/stf_check/stf_check.cpp:511-520 | For a consistent ledger:<br>- the status is RESERVED_NO_ERROR iff every counter is 0;<br>- a suppressed code is neither counted nor returned;<br>- a returned code was counted;<br>- the sentinel needs continue mode, where it means two distinct codes were counted. |
| `StfCheck.RunVerdict` | tools/stf_check/stf_check.cpp:505-520 | The same statements hold of the run's final status. In continue mode the run never halts. |
| `StfDiff.AfterFirstMark` | tools/stf_diff/stf_diff.cpp:73-79 | Specification of the marker search: the position found lies between the start and the end of the trace. |
| `StfDiff.BeginPosition` | tools/stf_diff/stf_diff.cpp:68-83 | Specification of getBeginIterator: the position lies between start-1 and the end of the trace. |
| `StfDiff.AfterFirstMarkSpec` | tools/stf_diff/stf_diff.cpp:73-79 | The position found is just after the first marking record at or after the start. When there is none, it is the end. |
| `StfDiff.BeginPositionSpec` | tools/stf_diff/stf_diff.cpp:68-83 | The comparison starts at start-1. With the markpoint or tracepoint option, it starts just after the first marking record from there, or at the end when there is none. |
| `StfDiff.GetBeginIterator` | tools/stf_diff/stf_diff.cpp:68-83 | The loop returns `BeginPosition`. |
| `StfDiff.Mismatches` | tools/stf_diff/stf_diff.cpp:109-199 | Specification of the differences the walk counts with no limit. There are never more than the records of the longer trace. |
| `StfDiff.Walk` | tools/stf_diff/stf_diff.cpp:109-199 | Specification of the walk with both limits: -l bounds the steps `count` counts, and -n caps the differences. There are never more differences than the cap or than steps, and never more steps than a non-zero -l. A kernel record skipped while both traces have records costs no step. |
| `StfDiff.WalkBelowMismatches` | tools/stf_diff/stf_diff.cpp:109-199 | The walk never finds more differences than `Mismatches`. |
| `StfDiff.WalkFindsMismatches` | tools/stf_diff/stf_diff.cpp:109-199 | When -l did not stop the walk, it finds min(-n, `Mismatches`) differences; without -l this always holds. |
| `StfDiff.WalkStepsPlain` | tools/stf_diff/stf_diff.cpp:109-153 | Without kernel skipping, -l or a binding cap, `count` ends at the length of the longer trace. |
| `StfDiff.KernelSkipIsFree` | tools/stf_diff/stf_diff.cpp:159-170 | Skipping a kernel record while the other trace has records changes neither the differences nor `count`. |
| `StfDiff.StreamingDiff` | tools/stf_diff/stf_diff.cpp:87-207 | The result is set as follows:<br>- it fails iff the ISAs differ;<br>- the difference count and `count` are exactly those of `Walk` from the two begin positions, with -l and -n as its limits;<br>- the return value is 1 iff a difference was counted;<br>- at most diff_count differences are counted, never more than `Mismatches`, and count never passes a non-zero length;<br>- when the length bound did not stop it, the count is min(diff_count, total differences). |
| `StfDiff.DiffLoop` | tools/stf_diff/stf_diff.cpp:109-199 | The while loop of streamingDiff ends with the differences and `count` of `Walk` from the two cursors. |
| `StfDiff.DiffStep` | tools/stf_diff/stf_diff.cpp:111-198 | One loop iteration stops exactly when both traces have ended. Otherwise it advances a cursor and keeps what was counted plus the rest of `Walk` unchanged. |
| `StfDiff.MismatchesExhausted` | tools/stf_diff/stf_diff.cpp:109-153 | Once one trace has ended, every record left in the other is one difference. |
| `StfDiff.MismatchesSelf` | tools/stf_diff/stf_diff.cpp:155-199 | Without kernel skipping, a trace has no difference with itself. |
| `StfDiff.MismatchesSymmetric` | tools/stf_diff/stf_diff.cpp:109-199 | Without kernel skipping, the number of differences does not depend on the order of the traces. |
| `StfDiff.KernelTailCountedAsDifference` | tools/stf_diff/stf_diff.cpp:109-170 | As written, two identical one-record kernel traces differ once under kernel skipping. |
| `StfDiff.UserMismatchesIsUserDiff` | tools/stf_diff/stf_diff.cpp:159-170 | The corrected walk with kernel skipping compares exactly the user-code records of the two traces. Without skipping it is the walk as written. |
| `StfDiff.UserMismatchesSelf` | tools/stf_diff/stf_diff.cpp:159-170 | The corrected walk finds no difference between a trace and itself, kernel skipping or not. |
| `StfDiff.InstVec.constructor` | tools/stf_diff/stf_diff.cpp:210 | A new vector is empty. |
| `StfDiff.InstVec.PushBack` | tools/stf_diff/stf_diff.cpp:239-246 | Appends one entry. |
| `StfDiff.InstVec.PopBack` | tools/stf_diff/stf_diff.cpp:234 | Removes the last entry. |
| `StfDiff.ExtractStep` | tools/stf_diff/stf_diff.cpp:222-256 | Specification of one record of the extraction loop: a skipped kernel record changes nothing. Otherwise the record's view ends the vector, with at most one entry added, and its pc becomes the last user pc. |
| `StfDiff.Extract` | tools/stf_diff/stf_diff.cpp:221-257 | Specification of the extraction loop until the length bound stops it: each record adds at most one entry. |
| `StfDiff.ExtractRecord` | tools/stf_diff/stf_diff.cpp:222-256 | One record of the extraction loop leaves the vector, last pc and count as `ExtractStep` describes. |
| `StfDiff.ExtractInstructions` | tools/stf_diff/stf_diff.cpp:209-258 | The vector ends as `Extract` of the records from the begin position describes. |
| `StfDiff.ExtractPrefixDone` | tools/stf_diff/stf_diff.cpp:254-256 | Once the length bound is reached, later records change nothing. |
| `StfDiff.ExtractAll` | tools/stf_diff/stf_diff.cpp:221-257 | Without kernel skipping or length bound, extraction appends the view of every record, in order, and counts them all. |
| `StfDiff.ExtractUser` | tools/stf_diff/stf_diff.cpp:220-257 | With kernel skipping and any length bound: until the bound stops extraction, kernel records add nothing, and the vector is the starting vector plus the user-code records' views with each run of equal pcs reduced to its last record (a same-pc record replaces the last entry). The count is the number of entries added and the last user pc is that of the last user record. With no bound (length 0) extraction never stops. |
| `StfDiff.ExtractUserStops` | tools/stf_diff/stf_diff.cpp:220-257 | With kernel skipping and a length bound: when record j-1 is the one that reaches the bound, extraction ends there and later records are not read. That record is user code, and the vector is the collapsed user-code views of the first j records, exactly `length` of them. |
| `StfDiff.ExtractFirst` | tools/stf_diff/stf_diff.cpp:253-256 | Without kernel skipping, a length bound keeps exactly the views of the first `length` records. |
| `StfDiff.ExtractBounded` | tools/stf_diff/stf_diff.cpp:253-256 | With a length bound, the count stays between 0 and length, and the loop is stopped exactly when it reaches length. |
| `StfDiff.CollapseNoRepeats` | tools/stf_diff/stf_diff.cpp:231-236 | After replacement, no two neighbouring kept instructions share a pc. |
| `StfDiff.CollapseStep` | tools/stf_diff/stf_diff.cpp:231-248 | Keeping one more user record replaces the last entry exactly when its pc equals the last kept pc. |
| `AddressRanges.NewRange` | include/stf_address_range.hpp:15-20 | Construction succeeds iff start < end, and then stores both addresses. |
| `AddressRanges.Range` | include/stf_address_range.hpp:30-32 | range() is positive, and start + range() == end. |
| `AddressRanges.NewRangeAccessors` | include/stf_address_range.hpp:22-32 | A constructed range reports end - start as its range. |
| `AddressRanges.Contains` | include/stf_address_range.hpp:34-36 | Specification of contains(): start <= pc < end. |
| `AddressRanges.Less` | include/stf_address_range.hpp:46-48 | Specification of `<` on ranges: an earlier start, or the same start and a shorter range. |
| `AddressRanges.LessPc` | include/stf_address_range.hpp:50-52 | Specification of `<` against a pc: the start is below the pc. |
| `AddressRanges.Greater` | include/stf_address_range.hpp:54-56 | Specification of `>` on ranges: a later start, or the same start and a longer range. |
| `AddressRanges.GreaterPc` | include/stf_address_range.hpp:58-60 | Specification of `>` against a pc: the start is above the pc. |
| `AddressRanges.Equal` | include/stf_address_range.hpp:62-64 | Specification of `==`: the same start and the same end. |
| `AddressRanges.LessEq` | include/stf_address_range.hpp:66-68 | Specification of `<=`: `<` or `==`. |
| `AddressRanges.GreaterEq` | include/stf_address_range.hpp:70-72 | Specification of `>=`: `>` or `==`. |
| `AddressRanges.ContainsOffset` | include/stf_address_range.hpp:34-36 | contains(pc) iff the offset of pc from start is below range(). |
| `AddressRanges.ContainsBounds` | include/stf_address_range.hpp:34-36 | The start and end-1 are contained; the end is not. |
| `AddressRanges.EqualIsIdentity` | include/stf_address_range.hpp:62-64 | `==` holds iff the two ranges are the same. |
| `AddressRanges.LessIsLexicographic` | include/stf_address_range.hpp:46-48 | `<` is the lexicographic order on (start, end). |
| `AddressRanges.LessIrreflexive` | include/stf_address_range.hpp:46-48 | No range is `<` itself. |
| `AddressRanges.LessTransitive` | include/stf_address_range.hpp:46-48 | `<` is transitive. |
| `AddressRanges.GreaterIsFlippedLess` | include/stf_address_range.hpp:54-72 | `a > b` iff `b < a`, and `a >= b` iff `b <= a`. |
| `AddressRanges.Trichotomy` | include/stf_address_range.hpp:46-64 | Exactly one of `<`, `==`, `>` holds. |
| `AddressRanges.LessEqTotalOrder` | include/stf_address_range.hpp:66-68 | `<=` is reflexive, antisymmetric, transitive and total, and is the negation of the flipped `<`. |
| `AddressRanges.PcComparisonsUseStart` | include/stf_address_range.hpp:50-60 | Comparing with a bare pc reads only the start address. |
| `AddressRanges.PcComparisonsAndContains` | include/stf_address_range.hpp:34-60 | A range containing pc is `< pc` unless pc is its start, and is never `> pc`. |
| `AddressRanges.StartDecides` | include/stf_address_range.hpp:38-56 | The range that starts earlier is smaller, whatever the lengths. |

## Left out

- Printing is not modelled: diagnostic text, the summary lines, `printErrorCounts`, the `-p` summary, the percentage warning, and everything `only_count` or the unified diff prints.
- `inst_count` is not modelled. It feeds only the percentage warning.
- Command-line parsing, trace reading and opening files are replaced by parameters. The reader becomes a sequence of records, the header becomes a sequence of `TraceInfo`, and the features become `Features`.
- The decoder is replaced by a function from opcode to its answers. So is the STFDiffInst built from a record, which becomes the record's `view`.
- Numeric exit status values, such as 255 for multiple errors, are not modelled. The model returns the `Status` value. When a fail-fast report ends the run, the process exit that `ErrorTracker` performs is modelled as the `halted` flag; the status then is the return code at that moment.
- The disabled physical-address, physical-pc and header-PTE checks (commented out or `#if 0`) are not modelled. Their counters stay 0 as in the code.
- `StfCheck.CheckMemoryAccesses` does not model the `size_t` wrap-around of `mem_access_size`. Accesses with a total size of 2^64 or more would wrap.
- The count in `extractInstructions` is `uint64_t`, and `count--` on 0 wraps before the following `count++`. The model uses an integer; the value after each record is the same.
- `StfDiff.ExtractInstructions` requires that no `pop_back` falls on an empty vector, which is undefined behaviour in the source. With kernel skipping and an initially empty vector, this is the case where the first user record has pc 0xFFFFFFFFFFFFFFFF.
- `StfDiff.GetBeginIterator` requires start in 1..|trace|+1, because `std::next` outside the trace is undefined.
- The ISA check in `streamingDiff` throws through `stf_assert`; the model reports it as `ok = false`. `STFAddressRange`'s constructor check is modelled as `AssertFailed`.
- `stf_check.hpp`, which defines `ErrorTracker` and the error-code numbering, is not part of this model. The ledger policy is stated above.
- `main` of stf_diff, the unified diff over the extracted vectors, and the STFDiffInst comparison operators are not part of this model.
- STFDiffInst's `!=` is modelled as Dafny's `!=` on the view. This assumes that STFDiffInst's `!=` is the negation of an equivalence relation. `StfDiff.MismatchesSelf`, `StfDiff.MismatchesSymmetric` and `StfDiff.UserMismatchesSelf` rely on that assumption (reflexivity and symmetry).

## Findings

| source | as written | input that shows it | evidently intended | confidence | as-written member | corrected member |
|---|---|---|---|---|---|---|
| tools/stf_diff/stf_diff.cpp:109-170 | With `ignore_kernel`, kernel records are skipped only while both traces still have records. Once one trace ends, every kernel record left in the other is counted as a difference. | Two identical traces whose last record is kernel code, e.g. `[k]` against `[k]`. Trace 1's `k` is skipped, trace 1 ends, and trace 2's `k` is counted: 1 difference. | Kernel records are never compared, so a trace never differs from itself. | medium, not executed | `StfDiff.KernelTailCountedAsDifference` | `StfDiff.UserMismatchesIsUserDiff` |
