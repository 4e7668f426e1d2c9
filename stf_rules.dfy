/**
 * The rules stf_check applies, each as the list of ledger calls it makes.
 * A per-record rule reads the current record, the same thread's previous
 * record, the decoder's view of the previous record's opcode and the
 * thread-switch flag; the header and post-scan rules read the trace's
 * feature flags and the counters gathered during the scan.
 */
module StfRules {
  import opened ErrorLedger
  import opened StfRecords

  /** The options of stf_check that the rules read. */
  datatype CheckConfig = CheckConfig(
    continueOnError: bool,          // -c
    printMemoryZeroWarnings: bool,  // -d
    endInst: nat,                   // -e, 0 for no bound
    ignored: set<ErrorCode>)        // -i

  /** The header's feature flags that the post-scan rules compare with the trace. */
  datatype Features = Features(physicalAddress: bool, pte: bool, rv64: bool)

  /**
   * A trace-info record: a reserved generator value is invalid, and so is a
   * generator value that cannot be printed (the reader throws).
   */
  datatype TraceInfo = TraceInfo(generatorReserved: bool, generatorPrintable: bool)

  /** countError followed by reportError on the same code. */
  function Raise(c: ErrorCode): seq<Action>
  {
    [Count(c), Report(c)]
  }

  /** The header loop: a HEADER raise for each trace-info record that is reserved or whose generator cannot be printed. */
  function HeaderActions(infos: seq<TraceInfo>): (acts: seq<Action>)
    ensures |acts| <= 2 * |infos|
    ensures |acts| % 2 == 0
    decreases |infos|
  {
    if infos == [] then []
    else
      var info := infos[|infos| - 1];
      HeaderActions(infos[..|infos| - 1]) +
      (if info.generatorReserved || !info.generatorPrintable then Raise(Header) else [])
  }

  predicate DecodeFailure(prev: Inst, d: Decoded)
  {
    d.failed && prev.events == []
  }

  predicate MissingLoad(prev: Inst, d: Decoded)
  {
    d.load && (!prev.isLoad || prev.memReads == []) && prev.events == [] && !IsVLZero(prev)
  }

  predicate MissingStore(prev: Inst, d: Decoded)
  {
    d.store && (!prev.isStore || prev.memWrites == []) && prev.events == [] && !d.atomic && !IsVLZero(prev)
  }

  predicate UncondBranchWithoutTarget(prev: Inst, d: Decoded)
  {
    d.branch && !d.conditional && prev.events == [] && !prev.isTakenBranch
  }

  predicate UserSwitchWithoutReturn(prev: Inst, d: Decoded)
  {
    prev.isChangeToUserMode && !d.exceptionReturn
  }

  /** The end-index cutoff: with -e M, a record whose index exceeds M ends the scan. */
  predicate PastEnd(cur: Inst, endInst: nat)
  {
    endInst != 0 && cur.index > endInst
  }

  function InvalidInstActions(cur: Inst): seq<Action>
  {
    if !cur.valid then Raise(InvalidInst) else []
  }

  function DecodeActions(prev: Inst, d: Decoded): seq<Action>
  {
    if DecodeFailure(prev, d) then Raise(DecoderFailure) else []
  }

  function LoadActions(prev: Inst, d: Decoded): seq<Action>
  {
    if MissingLoad(prev, d) then [Count(MissMem)] + Raise(MissMemLoad) else []
  }

  function StoreActions(prev: Inst, d: Decoded): seq<Action>
  {
    if MissingStore(prev, d) then [Count(MissMem)] + Raise(MissMemStr) else []
  }

  function PcActions(cur: Inst): seq<Action>
  {
    if cur.pc % 2 != 0 then
      if cur.opcode16 then Raise(InvalidPc16) else Raise(InvalidPc32)
    else []
  }

  /** The checks on one memory access; a zero address is always counted but reported only with -d. */
  function AccessActions(m: MemAccess, printZero: bool): seq<Action>
  {
    ZeroAddressActions(m, printZero) + AttrActions(m)
  }

  /** An access at address 0 is counted, and reported only with -d. */
  function ZeroAddressActions(m: MemAccess, printZero: bool): seq<Action>
  {
    if m.address == 0 then [Count(MemPointToZero)] + (if printZero then [Report(MemPointToZero)] else []) else []
  }

  function AttrActions(m: MemAccess): seq<Action>
  {
    if m.attr == 0 then Raise(MemAttr) else []
  }

  function MemActions(ms: seq<MemAccess>, printZero: bool): seq<Action>
    decreases |ms|
  {
    if ms == [] then [] else MemActions(ms[..|ms| - 1], printZero) + AccessActions(ms[|ms| - 1], printZero)
  }

  function BranchActions(prev: Inst, d: Decoded): seq<Action>
  {
    if UncondBranchWithoutTarget(prev, d) then Raise(UncondBr) else []
  }

  function UserModeActions(prev: Inst, d: Decoded): seq<Action>
  {
    if UserSwitchWithoutReturn(prev, d) then Raise(SwitchUsr) else []
  }

  /** The rules that run before the end-index cutoff: invalid record, decode failure, missing load and store. */
  function EarlyActions(cur: Inst, prev: Inst, d: Decoded): seq<Action>
  {
    InvalidInstActions(cur) + DecodeActions(prev, d) + LoadActions(prev, d) + StoreActions(prev, d)
  }

  /** The two rules that only run when the thread identity did not change. */
  function ThreadActions(prev: Inst, d: Decoded, threadSwitch: bool): seq<Action>
  {
    if threadSwitch then [] else BranchActions(prev, d) + UserModeActions(prev, d)
  }

  /** The rules after the cutoff: pc alignment, memory accesses, branch target, user-mode switch. */
  function LateActions(cur: Inst, prev: Inst, d: Decoded, threadSwitch: bool, printZero: bool): seq<Action>
  {
    PcActions(cur) + MemActions(cur.accesses, printZero) + ThreadActions(prev, d, threadSwitch)
  }

  /** Every ledger call made while checking one record, in order. */
  function StepActions(cur: Inst, prev: Inst, d: Decoded, threadSwitch: bool, cfg: CheckConfig): seq<Action>
  {
    EarlyActions(cur, prev, d) +
    (if PastEnd(cur, cfg.endInst) then [] else LateActions(cur, prev, d, threadSwitch, cfg.printMemoryZeroWarnings))
  }

  /** The bytes a record's accesses move in all (mem_access_size). */
  function TotalSize(ms: seq<MemAccess>): nat
    decreases |ms|
  {
    if ms == [] then 0 else TotalSize(ms[..|ms| - 1]) + ms[|ms| - 1].size
  }

  /** A record whose several accesses move at most 4 bytes in all could have been one access. */
  predicate Packable(cur: Inst)
  {
    TotalSize(cur.accesses) <= 4 && |cur.accesses| > 1
  }

  /** countError then reportError on each code, in order. */
  function RaiseAll(cs: seq<ErrorCode>): seq<Action>
    decreases |cs|
  {
    if cs == [] then [] else RaiseAll(cs[..|cs| - 1]) + Raise(cs[|cs| - 1])
  }

  /** The CONTAIN_PHYSICAL_ADDRESS flag against the physical-address and physical-pc counters. */
  function PhysAddrViolations(f: Features, paCount: nat, physPcCount: nat): seq<ErrorCode>
  {
    if f.physicalAddress then
      (if paCount == 0 then [PhysAddr] else []) + (if physPcCount == 0 then [PhysAddr] else [])
    else
      (if paCount > 0 then [PhysAddr] else []) + (if physPcCount > 0 then [PhysAddr] else [])
  }

  function PteHeaderViolations(hdrPteCount: nat): seq<ErrorCode>
  {
    if hdrPteCount > 0 then [PteHeader] else []
  }

  function EmbedPteViolations(f: Features, embedPteCount: nat): seq<ErrorCode>
  {
    if f.pte then (if embedPteCount == 0 then [EmbedPte] else [])
    else if embedPteCount > 0 then [EmbedPte] else []
  }

  function Rv64Violations(f: Features, hasRv64: bool): seq<ErrorCode>
  {
    if hasRv64 && !f.rv64 then [Rv64Insts]
    else if !hasRv64 && f.rv64 then [Rv64Insts] else []
  }

  function IneffViolations(memAccessPack: nat): seq<ErrorCode>
  {
    if memAccessPack > 0 then [IneffMemAcc] else []
  }

  /** The codes the checks after the scan raise, in the order main raises them. */
  function PostScanViolations(f: Features, paCount: nat, physPcCount: nat, hdrPteCount: nat,
                              embedPteCount: nat, hasRv64: bool, memAccessPack: nat): seq<ErrorCode>
  {
    PhysAddrViolations(f, paCount, physPcCount) + PteHeaderViolations(hdrPteCount) +
    EmbedPteViolations(f, embedPteCount) + Rv64Violations(f, hasRv64) + IneffViolations(memAccessPack)
  }

  /** The feature-flag comparisons after the scan and the inefficient-access summary: each raises its code. */
  function PostScanActions(f: Features, paCount: nat, physPcCount: nat, hdrPteCount: nat,
                           embedPteCount: nat, hasRv64: bool, memAccessPack: nat): seq<Action>
  {
    RaiseAll(PostScanViolations(f, paCount, physPcCount, hdrPteCount, embedPteCount, hasRv64, memAccessPack))
  }

  lemma {:induction false} RaiseAllConcat(a: seq<ErrorCode>, b: seq<ErrorCode>)
    ensures RaiseAll(a + b) == RaiseAll(a) + RaiseAll(b)
    decreases |b|
  {
    if b == [] {
      assert a + b == a;
    } else {
      assert (a + b)[..|a + b| - 1] == a + b[..|b| - 1];
      RaiseAllConcat(a, b[..|b| - 1]);
    }
  }

  lemma RaiseAllOne(c: ErrorCode)
    ensures RaiseAll([c]) == Raise(c)
  {
    assert [c][..0] == [];
  }

  /** Raising a list of codes counts each code as often as it occurs in the list. */
  lemma {:induction false} CountedRaiseAll(cs: seq<ErrorCode>, c: ErrorCode)
    ensures Counted(RaiseAll(cs), c) == multiset(cs)[c]
    decreases |cs|
  {
    if cs != [] {
      var init := cs[..|cs| - 1];
      CountedRaiseAll(init, c);
      CountedConcat(RaiseAll(init), Raise(cs[|cs| - 1]), c);
      CountedRaise(cs[|cs| - 1], c);
      assert cs == init + [cs[|cs| - 1]];
    }
  }

  /** Raising only ignored codes changes nothing, in either mode. */
  lemma {:induction false} RaiseAllIgnored(l: Ledger, cs: seq<ErrorCode>)
    requires forall j :: 0 <= j < |cs| ==> cs[j] in l.ignored
    ensures Apply(l, RaiseAll(cs)) == l
    decreases |cs|
  {
    if cs != [] {
      var init := cs[..|cs| - 1];
      RaiseAllIgnored(l, init);
      ApplyConcat(l, RaiseAll(init), Raise(cs[|cs| - 1]));
      ApplyConcat(l, [Count(cs[|cs| - 1])], [Report(cs[|cs| - 1])]);
      ApplySingle(l, Count(cs[|cs| - 1]));
      ApplySingle(l, Report(cs[|cs| - 1]));
    }
  }

  /**
   * In fail-fast mode, raising a list of codes ends the run at the first code
   * that is not ignored: that code is counted and reported, and nothing after
   * it has any effect.
   */
  lemma FailFastRaiseAll(l: Ledger, cs: seq<ErrorCode>, k: nat)
    requires !l.continueOnError && !l.halted
    requires k < |cs| && cs[k] !in l.ignored
    requires forall j :: 0 <= j < k ==> cs[j] in l.ignored
    ensures Apply(l, RaiseAll(cs)) == l.CountError(cs[k]).ReportError(cs[k])
  {
    var before, after := cs[..k], cs[k + 1..];
    assert cs == before + [cs[k]] + after;
    RaiseAllConcat(before + [cs[k]], after);
    RaiseAllConcat(before, [cs[k]]);
    RaiseAllOne(cs[k]);
    RaiseAllIgnored(l, before);
    ApplyConcat(l, RaiseAll(before), Raise(cs[k]));
    ApplyConcat(l, [Count(cs[k])], [Report(cs[k])]);
    ApplySingle(l, Count(cs[k]));
    ApplySingle(l.CountError(cs[k]), Report(cs[k]));
    var r := l.CountError(cs[k]).ReportError(cs[k]);
    assert r.halted;
    ApplyConcat(l, RaiseAll(before) + Raise(cs[k]), RaiseAll(after));
    ApplyFrame(r, RaiseAll(after));
  }

  /**
   * In fail-fast mode the first post-scan violation on a code that is not
   * ignored ends the run: that code is counted once more, no other counter
   * moves, and a run without an earlier error returns that code.
   */
  lemma FailFastPostScan(l: Ledger, f: Features, paCount: nat, physPcCount: nat, hdrPteCount: nat,
                         embedPteCount: nat, hasRv64: bool, memAccessPack: nat, k: nat)
    requires !l.continueOnError && !l.halted
    requires k < |PostScanViolations(f, paCount, physPcCount, hdrPteCount, embedPteCount, hasRv64, memAccessPack)|
    requires PostScanViolations(f, paCount, physPcCount, hdrPteCount, embedPteCount, hasRv64, memAccessPack)[k] !in l.ignored
    requires forall j :: 0 <= j < k ==>
               PostScanViolations(f, paCount, physPcCount, hdrPteCount, embedPteCount, hasRv64, memAccessPack)[j] in l.ignored
    ensures var c := PostScanViolations(f, paCount, physPcCount, hdrPteCount, embedPteCount, hasRv64, memAccessPack)[k];
            var r := Apply(l, PostScanActions(f, paCount, physPcCount, hdrPteCount, embedPteCount, hasRv64, memAccessPack));
            && r.halted
            && r.ErrorCount(c) == l.ErrorCount(c) + 1
            && (forall d :: d != c ==> r.ErrorCount(d) == l.ErrorCount(d))
            && (l.returnCode == NoError ==> r.returnCode == Failed(c))
  {
    FailFastRaiseAll(l, PostScanViolations(f, paCount, physPcCount, hdrPteCount, embedPteCount, hasRv64, memAccessPack), k);
  }

  // ---------------------------------------------------------------------
  // What each rule counts
  // ---------------------------------------------------------------------

  function Ind(b: bool): nat
  {
    if b then 1 else 0
  }

  lemma CountedRaise(x: ErrorCode, c: ErrorCode)
    ensures Counted(Raise(x), c) == Ind(x == c)
  {
    assert Raise(x)[..1] == [Count(x)];
    assert [Count(x)][..0] == [];
  }

  lemma CountedSingle(x: ErrorCode, c: ErrorCode)
    ensures Counted([Count(x)], c) == Ind(x == c)
  {
    assert [Count(x)][..0] == [];
  }

  lemma CountedMiss(x: ErrorCode, c: ErrorCode)
    ensures Counted([Count(MissMem)] + Raise(x), c) == Ind(c == MissMem) + Ind(c == x)
  {
    CountedConcat([Count(MissMem)], Raise(x), c);
    CountedRaise(x, c);
    assert [Count(MissMem)][..0] == [];
  }

  /** What each per-record rule counts, on its own. */
  lemma RuleCounts(cur: Inst, prev: Inst, d: Decoded, c: ErrorCode)
    ensures Counted(InvalidInstActions(cur), c) == Ind(!cur.valid && c == InvalidInst)
    ensures Counted(DecodeActions(prev, d), c) == Ind(DecodeFailure(prev, d) && c == DecoderFailure)
    ensures Counted(LoadActions(prev, d), c) == Ind(MissingLoad(prev, d) && (c == MissMem || c == MissMemLoad))
    ensures Counted(StoreActions(prev, d), c) == Ind(MissingStore(prev, d) && (c == MissMem || c == MissMemStr))
    ensures Counted(PcActions(cur), c) ==
            Ind(cur.pc % 2 != 0 && c == (if cur.opcode16 then InvalidPc16 else InvalidPc32))
    ensures Counted(BranchActions(prev, d), c) == Ind(UncondBranchWithoutTarget(prev, d) && c == UncondBr)
    ensures Counted(UserModeActions(prev, d), c) == Ind(UserSwitchWithoutReturn(prev, d) && c == SwitchUsr)
  {
    EarlyRuleCounts(cur, prev, d, c);
    LateRuleCounts(cur, prev, d, c);
  }

  lemma EarlyRuleCounts(cur: Inst, prev: Inst, d: Decoded, c: ErrorCode)
    ensures Counted(InvalidInstActions(cur), c) == Ind(!cur.valid && c == InvalidInst)
    ensures Counted(DecodeActions(prev, d), c) == Ind(DecodeFailure(prev, d) && c == DecoderFailure)
    ensures Counted(LoadActions(prev, d), c) == Ind(MissingLoad(prev, d) && (c == MissMem || c == MissMemLoad))
    ensures Counted(StoreActions(prev, d), c) == Ind(MissingStore(prev, d) && (c == MissMem || c == MissMemStr))
  {
    CountedRaise(InvalidInst, c);
    CountedRaise(DecoderFailure, c);
    CountedMiss(MissMemLoad, c);
    CountedMiss(MissMemStr, c);
  }

  lemma LateRuleCounts(cur: Inst, prev: Inst, d: Decoded, c: ErrorCode)
    ensures Counted(PcActions(cur), c) ==
            Ind(cur.pc % 2 != 0 && c == (if cur.opcode16 then InvalidPc16 else InvalidPc32))
    ensures Counted(BranchActions(prev, d), c) == Ind(UncondBranchWithoutTarget(prev, d) && c == UncondBr)
    ensures Counted(UserModeActions(prev, d), c) == Ind(UserSwitchWithoutReturn(prev, d) && c == SwitchUsr)
  {
    CountedRaise(InvalidPc16, c);
    CountedRaise(InvalidPc32, c);
    CountedRaise(UncondBr, c);
    CountedRaise(SwitchUsr, c);
  }

  /** A record's count of `c` is the sum over the rules that apply to it. */
  lemma StepCountedSplit(cur: Inst, prev: Inst, d: Decoded, ts: bool, cfg: CheckConfig, c: ErrorCode)
    ensures Counted(StepActions(cur, prev, d, ts, cfg), c) ==
            Counted(InvalidInstActions(cur), c) + Counted(DecodeActions(prev, d), c) +
            Counted(LoadActions(prev, d), c) + Counted(StoreActions(prev, d), c) +
            (if PastEnd(cur, cfg.endInst) then 0
             else Counted(PcActions(cur), c) + Counted(MemActions(cur.accesses, cfg.printMemoryZeroWarnings), c) +
                  (if ts then 0 else Counted(BranchActions(prev, d), c) + Counted(UserModeActions(prev, d), c)))
  {
    var i, dc, ld, st := InvalidInstActions(cur), DecodeActions(prev, d), LoadActions(prev, d), StoreActions(prev, d);
    CountedConcat(i, dc, c);
    CountedConcat(i + dc, ld, c);
    CountedConcat(i + dc + ld, st, c);
    var early := EarlyActions(cur, prev, d);
    if PastEnd(cur, cfg.endInst) {
      assert StepActions(cur, prev, d, ts, cfg) == early + [];
      CountedConcat(early, [], c);
    } else {
      var pc, mem := PcActions(cur), MemActions(cur.accesses, cfg.printMemoryZeroWarnings);
      var thr := ThreadActions(prev, d, ts);
      CountedConcat(pc, mem, c);
      CountedConcat(pc + mem, thr, c);
      CountedConcat(early, pc + mem + thr, c);
      if !ts {
        CountedConcat(BranchActions(prev, d), UserModeActions(prev, d), c);
      }
    }
  }

  function ZeroAddressCount(ms: seq<MemAccess>): nat
  {
    |set k | 0 <= k < |ms| && ms[k].address == 0|
  }

  function ZeroAttrCount(ms: seq<MemAccess>): nat
  {
    |set k | 0 <= k < |ms| && ms[k].attr == 0|
  }

  lemma ZeroAddressSnoc(ms: seq<MemAccess>)
    requires ms != []
    ensures ZeroAddressCount(ms) == ZeroAddressCount(ms[..|ms| - 1]) + Ind(ms[|ms| - 1].address == 0)
  {
    var init, n := ms[..|ms| - 1], |ms| - 1;
    var a := set k | 0 <= k < |ms| && ms[k].address == 0;
    var ai := set k | 0 <= k < |init| && init[k].address == 0;
    if ms[n].address == 0 { assert a == ai + {n}; } else { assert a == ai; }
  }

  lemma ZeroAttrSnoc(ms: seq<MemAccess>)
    requires ms != []
    ensures ZeroAttrCount(ms) == ZeroAttrCount(ms[..|ms| - 1]) + Ind(ms[|ms| - 1].attr == 0)
  {
    var init, n := ms[..|ms| - 1], |ms| - 1;
    var t := set k | 0 <= k < |ms| && ms[k].attr == 0;
    var ti := set k | 0 <= k < |init| && init[k].attr == 0;
    if ms[n].attr == 0 { assert t == ti + {n}; } else { assert t == ti; }
  }

  lemma CountedAccess(m: MemAccess, printZero: bool, c: ErrorCode)
    ensures Counted(AccessActions(m, printZero), c) ==
            Ind(m.address == 0 && c == MemPointToZero) + Ind(m.attr == 0 && c == MemAttr)
  {
    CountedConcat(ZeroAddressActions(m, printZero), AttrActions(m), c);
    CountedZeroAddress(m, printZero, c);
    CountedRaise(MemAttr, c);
  }

  lemma CountedZeroAddress(m: MemAccess, printZero: bool, c: ErrorCode)
    ensures Counted(ZeroAddressActions(m, printZero), c) == Ind(m.address == 0 && c == MemPointToZero)
  {
    if m.address == 0 {
      var z := if printZero then [Report(MemPointToZero)] else [];
      CountedConcat([Count(MemPointToZero)], z, c);
      CountedSingle(MemPointToZero, c);
      assert [Report(MemPointToZero)][..0] == [];
    }
  }

  /**
   * The memory rules count MEM_POINT_TO_ZERO once per access at address 0 and
   * MEM_ATTR once per access without attribute, whatever -d says, and count
   * no other code.
   */
  lemma {:induction false} MemActionsCounts(ms: seq<MemAccess>, printZero: bool, c: ErrorCode)
    ensures Counted(MemActions(ms, printZero), c) ==
            (if c == MemPointToZero then ZeroAddressCount(ms) else if c == MemAttr then ZeroAttrCount(ms) else 0)
    decreases |ms|
  {
    if ms != [] {
      var init := ms[..|ms| - 1];
      MemActionsCounts(init, printZero, c);
      CountedConcat(MemActions(init, printZero), AccessActions(ms[|ms| - 1], printZero), c);
      CountedAccess(ms[|ms| - 1], printZero, c);
      ZeroAddressSnoc(ms);
      ZeroAttrSnoc(ms);
    }
  }

  /** INVALID_INST is counted once for an invalid record and never otherwise, cutoff or not. */
  lemma InvalidInstCounted(cur: Inst, prev: Inst, d: Decoded, ts: bool, cfg: CheckConfig)
    ensures Counted(StepActions(cur, prev, d, ts, cfg), InvalidInst) == if !cur.valid then 1 else 0
  {
    StepCountedSplit(cur, prev, d, ts, cfg, InvalidInst);
    RuleCounts(cur, prev, d, InvalidInst);
    MemActionsCounts(cur.accesses, cfg.printMemoryZeroWarnings, InvalidInst);
  }

  /**
   * An odd pc counts exactly one of INVALID_PC_16 (16-bit opcode) and
   * INVALID_PC_32 (otherwise); an even pc, or a record past the cutoff,
   * counts neither.
   */
  lemma PcAlignmentCounted(cur: Inst, prev: Inst, d: Decoded, ts: bool, cfg: CheckConfig)
    ensures Counted(StepActions(cur, prev, d, ts, cfg), InvalidPc16) ==
            if !PastEnd(cur, cfg.endInst) && cur.pc % 2 == 1 && cur.opcode16 then 1 else 0
    ensures Counted(StepActions(cur, prev, d, ts, cfg), InvalidPc32) ==
            if !PastEnd(cur, cfg.endInst) && cur.pc % 2 == 1 && !cur.opcode16 then 1 else 0
  {
    StepCountedSplit(cur, prev, d, ts, cfg, InvalidPc16);
    RuleCounts(cur, prev, d, InvalidPc16);
    MemActionsCounts(cur.accesses, cfg.printMemoryZeroWarnings, InvalidPc16);
    StepCountedSplit(cur, prev, d, ts, cfg, InvalidPc32);
    RuleCounts(cur, prev, d, InvalidPc32);
    MemActionsCounts(cur.accesses, cfg.printMemoryZeroWarnings, InvalidPc32);
  }

  /** DECODER_FAILURE is counted iff the previous record's opcode fails to decode and it has no events. */
  lemma DecoderFailureCounted(cur: Inst, prev: Inst, d: Decoded, ts: bool, cfg: CheckConfig)
    ensures Counted(StepActions(cur, prev, d, ts, cfg), DecoderFailure) ==
            if d.failed && prev.events == [] then 1 else 0
  {
    StepCountedSplit(cur, prev, d, ts, cfg, DecoderFailure);
    RuleCounts(cur, prev, d, DecoderFailure);
    MemActionsCounts(cur.accesses, cfg.printMemoryZeroWarnings, DecoderFailure);
  }

  /**
   * A missing load counts MISS_MEM_LOAD, a missing store MISS_MEM_STR, and
   * each of them one MISS_MEM. A store that decodes as atomic, and a vector
   * record whose vector length is zero, are exempt.
   */
  lemma MissingMemoryCounted(cur: Inst, prev: Inst, d: Decoded, ts: bool, cfg: CheckConfig)
    ensures Counted(StepActions(cur, prev, d, ts, cfg), MissMemLoad) ==
            if d.load && (!prev.isLoad || prev.memReads == []) && prev.events == [] && !IsVLZero(prev) then 1 else 0
    ensures Counted(StepActions(cur, prev, d, ts, cfg), MissMemStr) ==
            if d.store && (!prev.isStore || prev.memWrites == []) && prev.events == [] && !d.atomic && !IsVLZero(prev)
            then 1 else 0
    ensures Counted(StepActions(cur, prev, d, ts, cfg), MissMem) ==
            Counted(StepActions(cur, prev, d, ts, cfg), MissMemLoad) + Counted(StepActions(cur, prev, d, ts, cfg), MissMemStr)
  {
    StepCountedSplit(cur, prev, d, ts, cfg, MissMemLoad);
    RuleCounts(cur, prev, d, MissMemLoad);
    MemActionsCounts(cur.accesses, cfg.printMemoryZeroWarnings, MissMemLoad);
    StepCountedSplit(cur, prev, d, ts, cfg, MissMemStr);
    RuleCounts(cur, prev, d, MissMemStr);
    MemActionsCounts(cur.accesses, cfg.printMemoryZeroWarnings, MissMemStr);
    StepCountedSplit(cur, prev, d, ts, cfg, MissMem);
    RuleCounts(cur, prev, d, MissMem);
    MemActionsCounts(cur.accesses, cfg.printMemoryZeroWarnings, MissMem);
  }

  /**
   * Before the cutoff every access at address 0 counts one MEM_POINT_TO_ZERO
   * and every access with attribute 0 one MEM_ATTR, whether or not -d is
   * given; past the cutoff none do.
   */
  lemma MemoryAccessCounted(cur: Inst, prev: Inst, d: Decoded, ts: bool, cfg: CheckConfig)
    ensures Counted(StepActions(cur, prev, d, ts, cfg), MemPointToZero) ==
            if PastEnd(cur, cfg.endInst) then 0 else |set k | 0 <= k < |cur.accesses| && cur.accesses[k].address == 0|
    ensures Counted(StepActions(cur, prev, d, ts, cfg), MemAttr) ==
            if PastEnd(cur, cfg.endInst) then 0 else |set k | 0 <= k < |cur.accesses| && cur.accesses[k].attr == 0|
  {
    StepCountedSplit(cur, prev, d, ts, cfg, MemPointToZero);
    RuleCounts(cur, prev, d, MemPointToZero);
    MemActionsCounts(cur.accesses, cfg.printMemoryZeroWarnings, MemPointToZero);
    StepCountedSplit(cur, prev, d, ts, cfg, MemAttr);
    RuleCounts(cur, prev, d, MemAttr);
    MemActionsCounts(cur.accesses, cfg.printMemoryZeroWarnings, MemAttr);
  }

  /**
   * UNCOND_BR and SWITCH_USR are counted only without a thread switch and
   * before the cutoff; both read the decoder's view of the PREVIOUS record.
   */
  lemma ThreadRulesCounted(cur: Inst, prev: Inst, d: Decoded, ts: bool, cfg: CheckConfig)
    ensures Counted(StepActions(cur, prev, d, ts, cfg), UncondBr) ==
            if !PastEnd(cur, cfg.endInst) && !ts && d.branch && !d.conditional && prev.events == [] && !prev.isTakenBranch
            then 1 else 0
    ensures Counted(StepActions(cur, prev, d, ts, cfg), SwitchUsr) ==
            if !PastEnd(cur, cfg.endInst) && !ts && prev.isChangeToUserMode && !d.exceptionReturn then 1 else 0
  {
    StepCountedSplit(cur, prev, d, ts, cfg, UncondBr);
    RuleCounts(cur, prev, d, UncondBr);
    MemActionsCounts(cur.accesses, cfg.printMemoryZeroWarnings, UncondBr);
    StepCountedSplit(cur, prev, d, ts, cfg, SwitchUsr);
    RuleCounts(cur, prev, d, SwitchUsr);
    MemActionsCounts(cur.accesses, cfg.printMemoryZeroWarnings, SwitchUsr);
  }

  /** No per-record rule counts a header, feature-flag or summary code. */
  lemma StepCountsNoAggregate(cur: Inst, prev: Inst, d: Decoded, ts: bool, cfg: CheckConfig, c: ErrorCode)
    requires c.Header? || c.EmbedPte? || c.PaEq0? || c.PaNeVa? || c.InvalidPhysPc? || c.PhysAddr? ||
             c.PteHeader? || c.Rv64Insts? || c.IneffMemAcc?
    ensures Counted(StepActions(cur, prev, d, ts, cfg), c) == 0
  {
    StepCountedSplit(cur, prev, d, ts, cfg, c);
    RuleCounts(cur, prev, d, c);
    MemActionsCounts(cur.accesses, cfg.printMemoryZeroWarnings, c);
  }

  /** An invalid trace-info record counts HEADER once; a valid one counts nothing. */
  lemma {:induction false} HeaderCounted(infos: seq<TraceInfo>, c: ErrorCode)
    ensures Counted(HeaderActions(infos), c) ==
            if c == Header then |set k | 0 <= k < |infos| && (infos[k].generatorReserved || !infos[k].generatorPrintable)|
            else 0
    decreases |infos|
  {
    if infos != [] {
      var init, n := infos[..|infos| - 1], |infos| - 1;
      HeaderCounted(init, c);
      CountedRaise(Header, c);
      CountedConcat(HeaderActions(init), if infos[n].generatorReserved || !infos[n].generatorPrintable then Raise(Header) else [], c);
      BadHeadersSnoc(infos);
    }
  }

  /** Appending one trace-info record adds one bad entry when that record is bad. */
  lemma BadHeadersSnoc(infos: seq<TraceInfo>)
    requires infos != []
    ensures var init, n := infos[..|infos| - 1], |infos| - 1;
            |set k | 0 <= k < |infos| && (infos[k].generatorReserved || !infos[k].generatorPrintable)| ==
            |set k | 0 <= k < |init| && (init[k].generatorReserved || !init[k].generatorPrintable)| +
            Ind(infos[n].generatorReserved || !infos[n].generatorPrintable)
  {
    var init, n := infos[..|infos| - 1], |infos| - 1;
    var bad := set k | 0 <= k < |infos| && (infos[k].generatorReserved || !infos[k].generatorPrintable);
    var badInit := set k | 0 <= k < |init| && (init[k].generatorReserved || !init[k].generatorPrintable);
    assert forall k :: 0 <= k < |init| ==> init[k] == infos[k];
    if infos[n].generatorReserved || !infos[n].generatorPrintable {
      assert bad == badInit + {n};
      assert n !in badInit;
    } else {
      assert bad == badInit;
    }
  }

  /**
   * The post-scan rules with the counters stf_check actually has: no physical
   * address or physical pc is ever counted and no header PTE either, so the
   * physical-address flag alone decides two PHYS_ADDR counts and PTE_HEADER
   * never fires. EMBED_PTE, RV64_INSTS and INEFF_MEM_ACC fire once on a
   * disagreement, and no other code is counted. (In fail-fast mode the first
   * of these ends the run, see FailFastPostScan.)
   */
  lemma PostScanCounted(f: Features, embedPteCount: nat, hasRv64: bool, memAccessPack: nat, c: ErrorCode)
    ensures Counted(PostScanActions(f, 0, 0, 0, embedPteCount, hasRv64, memAccessPack), c) ==
            (if c == PhysAddr then (if f.physicalAddress then 2 else 0)
             else if c == EmbedPte then Ind(f.pte != (embedPteCount > 0))
             else if c == Rv64Insts then Ind(hasRv64 != f.rv64)
             else if c == IneffMemAcc then Ind(memAccessPack > 0)
             else 0)
  {
    var ph, pt, em, rv, ie := PhysAddrViolations(f, 0, 0), PteHeaderViolations(0), EmbedPteViolations(f, embedPteCount),
                              Rv64Violations(f, hasRv64), IneffViolations(memAccessPack);
    CountedRaiseAll(ph + pt + em + rv + ie, c);
    PhysAddrCounted(f, c);
    EmbedPteCounted(f, embedPteCount, c);
    Rv64Counted(f, hasRv64, c);
    IneffCounted(memAccessPack, c);
  }

  lemma PhysAddrCounted(f: Features, c: ErrorCode)
    ensures multiset(PhysAddrViolations(f, 0, 0))[c] == if c == PhysAddr && f.physicalAddress then 2 else 0
  {
    if f.physicalAddress {
      assert PhysAddrViolations(f, 0, 0) == [PhysAddr, PhysAddr];
    } else {
      assert PhysAddrViolations(f, 0, 0) == [];
    }
  }

  lemma EmbedPteCounted(f: Features, embedPteCount: nat, c: ErrorCode)
    ensures multiset(EmbedPteViolations(f, embedPteCount))[c] == if c == EmbedPte then Ind(f.pte != (embedPteCount > 0)) else 0
  {
  }

  lemma Rv64Counted(f: Features, hasRv64: bool, c: ErrorCode)
    ensures multiset(Rv64Violations(f, hasRv64))[c] == if c == Rv64Insts then Ind(hasRv64 != f.rv64) else 0
  {
  }

  lemma IneffCounted(memAccessPack: nat, c: ErrorCode)
    ensures multiset(IneffViolations(memAccessPack))[c] == if c == IneffMemAcc then Ind(memAccessPack > 0) else 0
  {
  }
}
