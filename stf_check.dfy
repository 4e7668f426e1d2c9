/**
 * The scan of stf_check's main: the thread-identity map that supplies each
 * record's predecessor, the per-record rules, the end-index cutoff, the
 * post-scan flag checks and the final return code.
 *
 * `Scan` and `Run` are the specification, a left fold over the trace; the
 * methods are the checker's loop, which updates an `ErrorTracker` in place
 * and is proved to end in the ledger `Run` describes.
 */
module StfCheck {
  import opened ErrorLedger
  import opened StfRecords
  import opened StfRules

  /** The identity the previous-id registers hold before any record: each part the uint32 maximum. */
  const NoThread: ThreadId := ThreadId(0xFFFF_FFFF, 0xFFFF_FFFF, 0xFFFF_FFFF)

  /** The state the record loop carries from one record to the next. */
  datatype ScanState = ScanState(
    threadPrev: map<ThreadId, Inst>,  // last record seen per thread identity
    prevId: ThreadId,                 // identity of the record just checked
    embedPteCount: nat,
    memAccessPack: nat,
    ledger: Ledger,
    stopped: bool)                    // the end-index cutoff was hit
  {
    /** The scan is over: cut off, or a fail-fast report ended the run. */
    predicate Done()
    {
      stopped || ledger.halted
    }

    /** The previous record of `cur`'s thread; the map yields a default record for a new identity. */
    function Prev(cur: Inst): Inst
    {
      if cur.id in threadPrev then threadPrev[cur.id] else DefaultInst
    }

    predicate ThreadSwitch(cur: Inst)
    {
      cur.id != prevId
    }
  }

  /** Before the loop: the first record, if any, is recorded as its own predecessor. */
  function Seed(trace: seq<Inst>, l: Ledger): ScanState
  {
    if trace == [] then ScanState(map[], NoThread, 0, 0, l, false)
    else ScanState(map[trace[0].id := trace[0]], trace[0].id, 0, 0, l, false)
  }

  /** One iteration of the record loop. */
  function Step(st: ScanState, cur: Inst, decode: nat -> Decoded, cfg: CheckConfig): ScanState
  {
    var prev := st.Prev(cur);
    var l := Apply(st.ledger, StepActions(cur, prev, decode(prev.opcode), st.ThreadSwitch(cur), cfg));
    if PastEnd(cur, cfg.endInst) then st.(prevId := cur.id, ledger := l, stopped := true)
    else
      ScanState(st.threadPrev[cur.id := cur], cur.id, st.embedPteCount + cur.embeddedPtes,
                st.memAccessPack + (if Packable(cur) then 1 else 0), l, false)
  }

  /** The record loop over `trace`, which stops once the scan is done. */
  function Scan(seed: ScanState, trace: seq<Inst>, decode: nat -> Decoded, cfg: CheckConfig): ScanState
    decreases |trace|
  {
    if trace == [] then seed
    else
      var s := Scan(seed, trace[..|trace| - 1], decode, cfg);
      if s.Done() then s else Step(s, trace[|trace| - 1], decode, cfg)
  }

  /**
   * The whole run: header records, the record loop, the post-scan checks
   * (the physical-address, physical-pc and header-PTE counters are never
   * incremented and stay 0), then the PA_EQ_0 return code rewritten to
   * RESERVED_NO_ERROR.
   */
  function Run(cfg: CheckConfig, f: Features, hasRv64: bool, infos: seq<TraceInfo>, trace: seq<Inst>,
               decode: nat -> Decoded): Ledger
  {
    PaEq0Cleared(Checked(cfg, f, hasRv64, infos, trace, decode))
  }

  /** The last step of main: a PA_EQ_0 return code reads as RESERVED_NO_ERROR. */
  function PaEq0Cleared(l: Ledger): Ledger
  {
    if !l.halted && l.returnCode == Failed(PaEq0) then l.(returnCode := NoError) else l
  }

  /** The ledger once every check has run, before the return code is looked at. */
  function Checked(cfg: CheckConfig, f: Features, hasRv64: bool, infos: seq<TraceInfo>, trace: seq<Inst>,
                   decode: nat -> Decoded): Ledger
  {
    var st := Scanned(cfg, infos, trace, decode);
    Apply(st.ledger, PostScanActions(f, 0, 0, 0, st.embedPteCount, hasRv64, st.memAccessPack))
  }

  /** The state after the header check and the record loop. */
  function Scanned(cfg: CheckConfig, infos: seq<TraceInfo>, trace: seq<Inst>, decode: nat -> Decoded): ScanState
  {
    var header := Apply(NewLedger(cfg.ignored, cfg.continueOnError), HeaderActions(infos));
    Scan(Seed(trace, header), trace, decode, cfg)
  }

  // ---------------------------------------------------------------------
  // The checker's loops
  // ---------------------------------------------------------------------

  /** countError then reportError on one code. */
  method RaiseError(tracker: ErrorTracker, c: ErrorCode)
    modifies tracker
    ensures tracker.State() == Apply(old(tracker.State()), Raise(c))
  {
    tracker.CountError(c);
    tracker.ReportError(c);
    assert Raise(c)[..1] == [Count(c)];
    assert [Count(c)][..0] == [];
  }

  /** The MISS_MEM count followed by the specific missing-load or missing-store error. */
  method RaiseMissing(tracker: ErrorTracker, c: ErrorCode)
    modifies tracker
    ensures tracker.State() == Apply(old(tracker.State()), [Count(MissMem)] + Raise(c))
  {
    ghost var l0 := tracker.State();
    tracker.CountError(MissMem);
    ApplySingle(l0, Count(MissMem));
    RaiseError(tracker, c);
    ApplyConcat(l0, [Count(MissMem)], Raise(c));
  }

  /** The trace-info records: each one with a reserved or unprintable generator is a HEADER error. */
  method CheckHeader(tracker: ErrorTracker, infos: seq<TraceInfo>)
    modifies tracker
    ensures tracker.State() == Apply(old(tracker.State()), HeaderActions(infos))
  {
    ghost var l0 := tracker.State();
    for j := 0 to |infos|
      invariant tracker.State() == Apply(l0, HeaderActions(infos[..j]))
    {
      ghost var before := HeaderActions(infos[..j]);
      var info := infos[j];
      if info.generatorReserved || !info.generatorPrintable {
        RaiseError(tracker, Header);
      }
      assert infos[..j + 1][..j] == infos[..j];
      ApplyConcat(l0, before, if info.generatorReserved || !info.generatorPrintable then Raise(Header) else []);
    }
    assert infos[..|infos|] == infos;
  }

  /** The memory-access loop of one record; returns mem_access_size. */
  method CheckMemoryAccesses(tracker: ErrorTracker, ms: seq<MemAccess>, printZero: bool) returns (size: nat)
    modifies tracker
    ensures tracker.State() == Apply(old(tracker.State()), MemActions(ms, printZero))
    ensures size == TotalSize(ms)
  {
    ghost var l0 := tracker.State();
    size := 0;
    for k := 0 to |ms|
      invariant tracker.State() == Apply(l0, MemActions(ms[..k], printZero))
      invariant size == TotalSize(ms[..k])
    {
      var m := ms[k];
      size := size + m.size;
      CheckAccess(tracker, m, printZero);
      assert ms[..k + 1][..k] == ms[..k];
      ApplyConcat(l0, MemActions(ms[..k], printZero), AccessActions(m, printZero));
    }
    assert ms[..|ms|] == ms;
  }

  /** The two checks on one memory access: a zero address and zero attributes. */
  method CheckAccess(tracker: ErrorTracker, m: MemAccess, printZero: bool)
    modifies tracker
    ensures tracker.State() == Apply(old(tracker.State()), AccessActions(m, printZero))
  {
    ghost var l0 := tracker.State();
    CheckZeroAddress(tracker, m, printZero);
    if m.attr == 0 {
      RaiseError(tracker, MemAttr);
    }
    ApplyConcat(l0, ZeroAddressActions(m, printZero), AttrActions(m));
  }

  method CheckZeroAddress(tracker: ErrorTracker, m: MemAccess, printZero: bool)
    modifies tracker
    ensures tracker.State() == Apply(old(tracker.State()), ZeroAddressActions(m, printZero))
  {
    if m.address == 0 {
      ghost var l0 := tracker.State();
      tracker.CountError(MemPointToZero);
      ApplySingle(l0, Count(MemPointToZero));
      if printZero {
        ghost var lz := tracker.State();
        tracker.ReportError(MemPointToZero);
        ApplySingle(lz, Report(MemPointToZero));
        ApplyConcat(l0, [Count(MemPointToZero)], [Report(MemPointToZero)]);
      } else {
        assert ZeroAddressActions(m, printZero) == [Count(MemPointToZero)];
      }
    }
  }

  method CheckValid(tracker: ErrorTracker, cur: Inst)
    modifies tracker
    ensures tracker.State() == Apply(old(tracker.State()), InvalidInstActions(cur))
  {
    if !cur.valid {
      RaiseError(tracker, InvalidInst);
    }
  }

  /** Decoder failures on a previous record that has no fault events. */
  method CheckDecode(tracker: ErrorTracker, prev: Inst, d: Decoded)
    modifies tracker
    ensures tracker.State() == Apply(old(tracker.State()), DecodeActions(prev, d))
  {
    if d.failed && prev.events == [] {
      RaiseError(tracker, DecoderFailure);
    }
  }

  /** A load without memory reads, unless it is a vector load of vector length zero. */
  method CheckLoad(tracker: ErrorTracker, prev: Inst, d: Decoded)
    modifies tracker
    ensures tracker.State() == Apply(old(tracker.State()), LoadActions(prev, d))
  {
    if d.load && (!prev.isLoad || prev.memReads == []) && prev.events == [] {
      var found := IsVLZero(prev);
      if !found {
        RaiseMissing(tracker, MissMemLoad);
      }
    }
  }

  /** A non-atomic store without memory writes, unless it is a vector store of vector length zero. */
  method CheckStore(tracker: ErrorTracker, prev: Inst, d: Decoded)
    modifies tracker
    ensures tracker.State() == Apply(old(tracker.State()), StoreActions(prev, d))
  {
    if d.store && (!prev.isStore || prev.memWrites == []) && prev.events == [] && !d.atomic {
      var found := IsVLZero(prev);
      if !found {
        RaiseMissing(tracker, MissMemStr);
      }
    }
  }

  method CheckPcAlignment(tracker: ErrorTracker, cur: Inst)
    modifies tracker
    ensures tracker.State() == Apply(old(tracker.State()), PcActions(cur))
  {
    if cur.pc % 2 != 0 {
      if cur.opcode16 {
        RaiseError(tracker, InvalidPc16);
      } else {
        RaiseError(tracker, InvalidPc32);
      }
    }
  }

  /** The unconditional-branch and user-mode rules, skipped on a thread switch. */
  method CheckThreadRules(tracker: ErrorTracker, prev: Inst, d: Decoded, threadSwitch: bool)
    modifies tracker
    ensures tracker.State() == Apply(old(tracker.State()), ThreadActions(prev, d, threadSwitch))
  {
    if !threadSwitch {
      ghost var l0 := tracker.State();
      if d.branch && !d.conditional {
        if prev.events == [] && !prev.isTakenBranch {
          RaiseError(tracker, UncondBr);
        }
      }
      var isModeChangeToUser := prev.isChangeToUserMode;
      if isModeChangeToUser && !d.exceptionReturn {
        RaiseError(tracker, SwitchUsr);
      }
      ApplyConcat(l0, BranchActions(prev, d), UserModeActions(prev, d));
    }
  }

  /**
   * The rules for one record, given its thread's previous record, the
   * decoder's view of that record's opcode and the thread-switch flag.
   * `stop` is the end-index cutoff; `pack` says the record's accesses could
   * have been packed.
   */
  method CheckRecord(tracker: ErrorTracker, cur: Inst, prev: Inst, d: Decoded, threadSwitch: bool, cfg: CheckConfig)
    returns (stop: bool, pack: bool)
    modifies tracker
    ensures tracker.State() == Apply(old(tracker.State()), StepActions(cur, prev, d, threadSwitch, cfg))
    ensures stop == PastEnd(cur, cfg.endInst)
    ensures pack == (!stop && Packable(cur))
  {
    ghost var l0 := tracker.State();
    CheckEarlyRules(tracker, cur, prev, d);
    if cfg.endInst != 0 && cur.index > cfg.endInst {
      assert EarlyActions(cur, prev, d) + [] == EarlyActions(cur, prev, d);
      return true, false;
    }
    stop := false;
    pack := CheckLateRules(tracker, cur, prev, d, threadSwitch, cfg.printMemoryZeroWarnings);
    ApplyConcat(l0, EarlyActions(cur, prev, d), LateActions(cur, prev, d, threadSwitch, cfg.printMemoryZeroWarnings));
  }

  /** The rules that run before the end-index cutoff. */
  method CheckEarlyRules(tracker: ErrorTracker, cur: Inst, prev: Inst, d: Decoded)
    modifies tracker
    ensures tracker.State() == Apply(old(tracker.State()), EarlyActions(cur, prev, d))
  {
    ghost var l0 := tracker.State();
    CheckValid(tracker, cur);
    CheckDecode(tracker, prev, d);
    ApplyConcat(l0, InvalidInstActions(cur), DecodeActions(prev, d));
    CheckLoad(tracker, prev, d);
    ApplyConcat(l0, InvalidInstActions(cur) + DecodeActions(prev, d), LoadActions(prev, d));
    CheckStore(tracker, prev, d);
    ApplyConcat(l0, InvalidInstActions(cur) + DecodeActions(prev, d) + LoadActions(prev, d), StoreActions(prev, d));
  }

  /** The rules that run for a record within the end index; `pack` says it splits tiny accesses. */
  method CheckLateRules(tracker: ErrorTracker, cur: Inst, prev: Inst, d: Decoded, threadSwitch: bool, printZero: bool)
    returns (pack: bool)
    modifies tracker
    ensures tracker.State() == Apply(old(tracker.State()), LateActions(cur, prev, d, threadSwitch, printZero))
    ensures pack == Packable(cur)
  {
    ghost var l0 := tracker.State();
    CheckPcAlignment(tracker, cur);
    var size := CheckMemoryAccesses(tracker, cur.accesses, printZero);
    pack := size <= 4 && |cur.accesses| > 1;
    ghost var pc, mem := PcActions(cur), MemActions(cur.accesses, printZero);
    ApplyConcat(l0, pc, mem);
    CheckThreadRules(tracker, prev, d, threadSwitch);
    ApplyConcat(l0, pc + mem, ThreadActions(prev, d, threadSwitch));
  }

  /** One check that raises `c` when `violated`. */
  method RaiseIf(tracker: ErrorTracker, violated: bool, c: ErrorCode)
    modifies tracker
    ensures tracker.State() == Apply(old(tracker.State()), RaiseAll(if violated then [c] else []))
  {
    RaiseAllOne(c);
    if violated {
      RaiseError(tracker, c);
    }
  }

  /** The CONTAIN_PHYSICAL_ADDRESS flag against the physical-address and physical-pc counters. */
  method CheckPhysAddr(tracker: ErrorTracker, f: Features, paCount: nat, physPcCount: nat)
    modifies tracker
    ensures tracker.State() == Apply(old(tracker.State()), RaiseAll(PhysAddrViolations(f, paCount, physPcCount)))
  {
    ghost var l0 := tracker.State();
    var first, second := if f.physicalAddress then paCount == 0 else paCount > 0,
                         if f.physicalAddress then physPcCount == 0 else physPcCount > 0;
    RaiseIf(tracker, first, PhysAddr);
    RaiseIf(tracker, second, PhysAddr);
    ghost var x, y := if first then [PhysAddr] else [], if second then [PhysAddr] else [];
    assert PhysAddrViolations(f, paCount, physPcCount) == x + y;
    RaiseAllConcat(x, y);
    ApplyConcat(l0, RaiseAll(x), RaiseAll(y));
  }

  /** The CONTAIN_PTE flag against the embedded PTEs. */
  method CheckEmbedPte(tracker: ErrorTracker, f: Features, embedPteCount: nat)
    modifies tracker
    ensures tracker.State() == Apply(old(tracker.State()), RaiseAll(EmbedPteViolations(f, embedPteCount)))
  {
    if f.pte {
      RaiseIf(tracker, embedPteCount == 0, EmbedPte);
    } else {
      RaiseIf(tracker, embedPteCount > 0, EmbedPte);
    }
  }

  /** The CONTAIN_RV64 flag against the initial instruction mode. */
  method CheckRv64(tracker: ErrorTracker, f: Features, hasRv64: bool)
    modifies tracker
    ensures tracker.State() == Apply(old(tracker.State()), RaiseAll(Rv64Violations(f, hasRv64)))
  {
    if hasRv64 && !f.rv64 {
      RaiseIf(tracker, true, Rv64Insts);
    } else {
      RaiseIf(tracker, !hasRv64 && f.rv64, Rv64Insts);
    }
  }

  /** The feature-flag checks after the scan and the inefficient-access summary. */
  method PostScanChecks(tracker: ErrorTracker, f: Features, paCount: nat, physPcCount: nat, hdrPteCount: nat,
                        embedPteCount: nat, hasRv64: bool, memAccessPack: nat)
    modifies tracker
    ensures tracker.State() ==
            Apply(old(tracker.State()), PostScanActions(f, paCount, physPcCount, hdrPteCount, embedPteCount, hasRv64, memAccessPack))
  {
    ghost var l0 := tracker.State();
    ghost var ph, pt, em, rv, ie := PhysAddrViolations(f, paCount, physPcCount), PteHeaderViolations(hdrPteCount),
                                    EmbedPteViolations(f, embedPteCount), Rv64Violations(f, hasRv64),
                                    IneffViolations(memAccessPack);
    CheckPhysAddr(tracker, f, paCount, physPcCount);
    RaiseIf(tracker, hdrPteCount > 0, PteHeader);
    ApplyConcat(l0, RaiseAll(ph), RaiseAll(pt));
    RaiseAllConcat(ph, pt);
    CheckEmbedPte(tracker, f, embedPteCount);
    ApplyConcat(l0, RaiseAll(ph + pt), RaiseAll(em));
    RaiseAllConcat(ph + pt, em);
    CheckRv64(tracker, f, hasRv64);
    ApplyConcat(l0, RaiseAll(ph + pt + em), RaiseAll(rv));
    RaiseAllConcat(ph + pt + em, rv);
    RaiseIf(tracker, memAccessPack > 0, IneffMemAcc);
    ApplyConcat(l0, RaiseAll(ph + pt + em + rv), RaiseAll(ie));
    RaiseAllConcat(ph + pt + em + rv, ie);
  }

  /**
   * stf_check's main over a trace: returns the exit status and the final
   * ledger. A fail-fast report ends the process at once, so nothing after it
   * runs.
   */
  method CheckTrace(cfg: CheckConfig, f: Features, hasRv64: bool, infos: seq<TraceInfo>, trace: seq<Inst>,
                    decode: nat -> Decoded)
    returns (status: Status, final: Ledger)
    ensures final == Run(cfg, f, hasRv64, infos, trace, decode)
    ensures status == final.returnCode
  {
    var tracker := new ErrorTracker(cfg.ignored, cfg.continueOnError);
    var threadPrev: map<ThreadId, Inst> := map[];
    var prevId := NoThread;
    if |trace| > 0 {
      prevId := trace[0].id;
      threadPrev := map[prevId := trace[0]];
    }
    CheckHeader(tracker, infos);
    ghost var seed := ScanState(threadPrev, prevId, 0, 0, tracker.State(), false);
    assert seed == Seed(trace, Apply(NewLedger(cfg.ignored, cfg.continueOnError), HeaderActions(infos)));

    var embedPteCount: nat, memAccessPack: nat := 0, 0;
    var stopped := false;
    var i := 0;
    while i < |trace| && !stopped && !tracker.halted
      invariant 0 <= i <= |trace|
      invariant ScanState(threadPrev, prevId, embedPteCount, memAccessPack, tracker.State(), stopped) ==
                Scan(seed, trace[..i], decode, cfg)
    {
      ScanLast(seed, trace, i, decode, cfg);
      threadPrev, prevId, embedPteCount, memAccessPack, stopped :=
        CheckRecordInContext(tracker, trace[i], threadPrev, prevId, embedPteCount, memAccessPack, decode, cfg);
      i := i + 1;
    }
    ScanPrefixDone(seed, trace, i, decode, cfg);
    status, final := FinishRun(tracker, f, embedPteCount, hasRv64, memAccessPack);
  }

  /** One iteration of the record loop: find the previous record of the identity, check, remember. */
  method CheckRecordInContext(tracker: ErrorTracker, cur: Inst, threadPrev: map<ThreadId, Inst>, prevId: ThreadId,
                              embedPteCount: nat, memAccessPack: nat, decode: nat -> Decoded, cfg: CheckConfig)
    returns (threadPrev': map<ThreadId, Inst>, prevId': ThreadId, embedPteCount': nat, memAccessPack': nat,
             stopped: bool)
    modifies tracker
    ensures ScanState(threadPrev', prevId', embedPteCount', memAccessPack', tracker.State(), stopped) ==
            Step(ScanState(threadPrev, prevId, embedPteCount, memAccessPack, old(tracker.State()), false), cur, decode, cfg)
  {
    ghost var st := ScanState(threadPrev, prevId, embedPteCount, memAccessPack, tracker.State(), false);
    var threadSwitch := cur.id != prevId;
    prevId' := cur.id;
    var prev := if cur.id in threadPrev then threadPrev[cur.id] else DefaultInst;
    assert prev == st.Prev(cur) && threadSwitch == st.ThreadSwitch(cur);
    var stop, pack := CheckRecord(tracker, cur, prev, decode(prev.opcode), threadSwitch, cfg);
    ghost var l := tracker.State();
    StepWithLedger(st, cur, decode, cfg, l);
    threadPrev', embedPteCount', memAccessPack', stopped := threadPrev, embedPteCount, memAccessPack, stop;
    if !stop {
      if pack {
        memAccessPack' := memAccessPack + 1;
      }
      embedPteCount' := embedPteCount + cur.embeddedPtes;
      threadPrev' := threadPrev[cur.id := cur];
    }
  }

  /** `Step` once the ledger after the record's checks is known as `l`. */
  lemma StepWithLedger(st: ScanState, cur: Inst, decode: nat -> Decoded, cfg: CheckConfig, l: Ledger)
    requires l == Apply(st.ledger, StepActions(cur, st.Prev(cur), decode(st.Prev(cur).opcode), st.ThreadSwitch(cur), cfg))
    ensures PastEnd(cur, cfg.endInst) ==> Step(st, cur, decode, cfg) == st.(prevId := cur.id, ledger := l, stopped := true)
    ensures !PastEnd(cur, cfg.endInst) ==>
              Step(st, cur, decode, cfg) ==
              ScanState(st.threadPrev[cur.id := cur], cur.id, st.embedPteCount + cur.embeddedPtes,
                        st.memAccessPack + (if Packable(cur) then 1 else 0), l, false)
  {
  }

  /** After the record loop: the post-scan checks unless the run halted, then the return code. */
  method FinishRun(tracker: ErrorTracker, f: Features, embedPteCount: nat, hasRv64: bool, memAccessPack: nat)
    returns (status: Status, final: Ledger)
    modifies tracker
    ensures final == PaEq0Cleared(Apply(old(tracker.State()), PostScanActions(f, 0, 0, 0, embedPteCount, hasRv64, memAccessPack)))
    ensures status == final.returnCode
  {
    if tracker.halted {
      ApplyFrame(tracker.State(), PostScanActions(f, 0, 0, 0, embedPteCount, hasRv64, memAccessPack));
      final := tracker.State();
      return final.returnCode, final;
    }
    PostScanChecks(tracker, f, 0, 0, 0, embedPteCount, hasRv64, memAccessPack);
    if !tracker.halted {
      var rc := tracker.GetReturnCode();
      if rc == Failed(PaEq0) {
        tracker.SetReturnCode(NoError);
      }
    }
    final := tracker.State();
    status := tracker.GetReturnCode();
  }

  // ---------------------------------------------------------------------
  // Properties of the scan
  // ---------------------------------------------------------------------

  /** Once the scan is done (cut off or halted), later records change nothing. */
  lemma {:induction false} ScanPrefixDone(seed: ScanState, trace: seq<Inst>, i: nat, decode: nat -> Decoded, cfg: CheckConfig)
    requires i <= |trace|
    requires i == |trace| || Scan(seed, trace[..i], decode, cfg).Done()
    ensures Scan(seed, trace, decode, cfg) == Scan(seed, trace[..i], decode, cfg)
    decreases |trace|
  {
    if i < |trace| {
      var init := trace[..|trace| - 1];
      assert init[..i] == trace[..i];
      ScanPrefixDone(seed, init, i, decode, cfg);
    } else {
      assert trace[..i] == trace;
    }
  }

  /** The most recent record of each thread identity in `t`. */
  function LastById(t: seq<Inst>): map<ThreadId, Inst>
    decreases |t|
  {
    if t == [] then map[] else LastById(t[..|t| - 1])[t[|t| - 1].id := t[|t| - 1]]
  }

  /** An identity is in the map iff some record carries it. */
  lemma {:induction false} LastByIdDomain(t: seq<Inst>, id: ThreadId)
    ensures id in LastById(t) <==> exists k :: 0 <= k < |t| && t[k].id == id
    decreases |t|
  {
    if t != [] {
      var init := t[..|t| - 1];
      LastByIdDomain(init, id);
      if exists k :: 0 <= k < |init| && init[k].id == id {
        var k :| 0 <= k < |init| && init[k].id == id;
        assert t[k] == init[k];
      }
      if exists k :: 0 <= k < |t| && t[k].id == id {
        var k :| 0 <= k < |t| && t[k].id == id;
        if k < |init| {
          assert init[k] == t[k];
        }
      }
    }
  }

  /** An identity maps to the last record that carries it. */
  lemma {:induction false} LastByIdLatest(t: seq<Inst>, k: nat)
    requires k < |t|
    requires forall j :: k < j < |t| ==> t[j].id != t[k].id
    ensures t[k].id in LastById(t) && LastById(t)[t[k].id] == t[k]
    decreases |t|
  {
    if k < |t| - 1 {
      var init := t[..|t| - 1];
      assert init[k] == t[k];
      forall j | k < j < |init| ensures init[j].id != init[k].id {
        assert init[j] == t[j];
      }
      LastByIdLatest(init, k);
    }
  }

  lemma ScanLast(seed: ScanState, trace: seq<Inst>, i: nat, decode: nat -> Decoded, cfg: CheckConfig)
    requires i < |trace|
    ensures Scan(seed, trace[..i + 1], decode, cfg) ==
            var s := Scan(seed, trace[..i], decode, cfg); if s.Done() then s else Step(s, trace[i], decode, cfg)
  {
    assert trace[..i + 1][..i] == trace[..i];
  }

  /** A scan that is still running after record i - 1 checked that record in full. */
  lemma ScanRunning(seed: ScanState, trace: seq<Inst>, i: nat, decode: nat -> Decoded, cfg: CheckConfig)
    requires 1 <= i <= |trace|
    requires !Scan(seed, trace[..i], decode, cfg).Done()
    ensures !Scan(seed, trace[..i - 1], decode, cfg).Done()
    ensures !PastEnd(trace[i - 1], cfg.endInst)
    ensures Scan(seed, trace[..i], decode, cfg).threadPrev ==
            Scan(seed, trace[..i - 1], decode, cfg).threadPrev[trace[i - 1].id := trace[i - 1]]
    ensures Scan(seed, trace[..i], decode, cfg).prevId == trace[i - 1].id
  {
    ScanLast(seed, trace, i - 1, decode, cfg);
  }

  /**
   * While the scan runs, the thread map holds the last record of every
   * identity seen so far and the previous-id registers hold the identity of
   * the record just checked; no record so far was past the cutoff.
   */
  lemma ScanHistory(trace: seq<Inst>, l: Ledger, i: nat, decode: nat -> Decoded, cfg: CheckConfig)
    requires 1 <= i <= |trace|
    requires !Scan(Seed(trace, l), trace[..i], decode, cfg).Done()
    ensures Scan(Seed(trace, l), trace[..i], decode, cfg).threadPrev == LastById(trace[..i])
    ensures Scan(Seed(trace, l), trace[..i], decode, cfg).prevId == trace[i - 1].id
    ensures forall k :: 0 <= k < i ==> !PastEnd(trace[k], cfg.endInst)
  {
    ScanThreadMap(trace, l, i, decode, cfg);
    ScanRunning(Seed(trace, l), trace, i, decode, cfg);
    ScanNoCutoff(trace, l, i, decode, cfg);
  }

  lemma {:induction false} ScanThreadMap(trace: seq<Inst>, l: Ledger, i: nat, decode: nat -> Decoded, cfg: CheckConfig)
    requires 1 <= i <= |trace|
    requires !Scan(Seed(trace, l), trace[..i], decode, cfg).Done()
    ensures Scan(Seed(trace, l), trace[..i], decode, cfg).threadPrev == LastById(trace[..i])
  {
    var seed := Seed(trace, l);
    ScanRunning(seed, trace, i, decode, cfg);
    assert trace[..i][..i - 1] == trace[..i - 1];
    assert LastById(trace[..i]) == LastById(trace[..i - 1])[trace[i - 1].id := trace[i - 1]];
    if i == 1 {
      assert trace[..0] == [];
    } else {
      ScanThreadMap(trace, l, i - 1, decode, cfg);
    }
  }

  lemma {:induction false} ScanNoCutoff(trace: seq<Inst>, l: Ledger, i: nat, decode: nat -> Decoded, cfg: CheckConfig)
    requires 1 <= i <= |trace|
    requires !Scan(Seed(trace, l), trace[..i], decode, cfg).Done()
    ensures forall k :: 0 <= k < i ==> !PastEnd(trace[k], cfg.endInst)
  {
    ScanRunning(Seed(trace, l), trace, i, decode, cfg);
    if i > 1 {
      ScanNoCutoff(trace, l, i - 1, decode, cfg);
    }
    forall k | 0 <= k < i ensures !PastEnd(trace[k], cfg.endInst) {
      if k < i - 1 {
        assert !PastEnd(trace[k], cfg.endInst);
      }
    }
  }

  /**
   * How record i (after the first) is checked: the thread switch is a change
   * of identity from record i - 1, and the previous record is the last
   * earlier record of the same identity, or the default record when there is
   * none.
   */
  lemma PreviousRecord(trace: seq<Inst>, l: Ledger, i: nat, decode: nat -> Decoded, cfg: CheckConfig)
    requires 1 <= i < |trace|
    requires !Scan(Seed(trace, l), trace[..i], decode, cfg).Done()
    ensures Scan(Seed(trace, l), trace[..i], decode, cfg).ThreadSwitch(trace[i]) <==> trace[i].id != trace[i - 1].id
    ensures forall k :: 0 <= k < i && trace[k].id == trace[i].id && (forall j :: k < j < i ==> trace[j].id != trace[i].id) ==>
              Scan(Seed(trace, l), trace[..i], decode, cfg).Prev(trace[i]) == trace[k]
    ensures (forall k :: 0 <= k < i ==> trace[k].id != trace[i].id) ==>
              Scan(Seed(trace, l), trace[..i], decode, cfg).Prev(trace[i]) == DefaultInst
  {
    ScanHistory(trace, l, i, decode, cfg);
    LastByIdDomain(trace[..i], trace[i].id);
    forall k | 0 <= k < i && trace[k].id == trace[i].id && (forall j :: k < j < i ==> trace[j].id != trace[i].id)
      ensures Scan(Seed(trace, l), trace[..i], decode, cfg).Prev(trace[i]) == trace[k]
    {
      assert trace[..i][k] == trace[k];
      forall j | k < j < i ensures trace[..i][j].id != trace[..i][k].id {
        assert trace[..i][j] == trace[j];
      }
      LastByIdLatest(trace[..i], k);
    }
    if trace[i].id in LastById(trace[..i]) {
      var k :| 0 <= k < i && trace[..i][k].id == trace[i].id;
      assert trace[k] == trace[..i][k];
    }
  }

  /** The first record is checked against itself as the previous record, without a thread switch. */
  lemma FirstRecordIsOwnPredecessor(trace: seq<Inst>, l: Ledger, decode: nat -> Decoded, cfg: CheckConfig)
    requires trace != []
    ensures Scan(Seed(trace, l), trace[..0], decode, cfg).Prev(trace[0]) == trace[0]
    ensures !Scan(Seed(trace, l), trace[..0], decode, cfg).ThreadSwitch(trace[0])
  {
    assert trace[..0] == [];
  }

  /** What the scan keeps: the ledger invariant, its configuration, and PA_EQ_0 never counted. */
  lemma {:induction false} ScanKeeps(seed: ScanState, trace: seq<Inst>, decode: nat -> Decoded, cfg: CheckConfig)
    requires Consistent(seed.ledger) && seed.ledger.ErrorCount(PaEq0) == 0
    ensures Consistent(Scan(seed, trace, decode, cfg).ledger)
    ensures Scan(seed, trace, decode, cfg).ledger.ErrorCount(PaEq0) == 0
    ensures Scan(seed, trace, decode, cfg).ledger.ignored == seed.ledger.ignored
    ensures Scan(seed, trace, decode, cfg).ledger.continueOnError == seed.ledger.continueOnError
    ensures seed.ledger.continueOnError && !seed.ledger.halted ==> !Scan(seed, trace, decode, cfg).ledger.halted
    decreases |trace|
  {
    if trace != [] {
      var s := Scan(seed, trace[..|trace| - 1], decode, cfg);
      ScanKeeps(seed, trace[..|trace| - 1], decode, cfg);
      if !s.Done() {
        var cur := trace[|trace| - 1];
        var prev := s.Prev(cur);
        var acts := StepActions(cur, prev, decode(prev.opcode), s.ThreadSwitch(cur), cfg);
        ApplyConsistent(s.ledger, acts);
        StepCountsNoAggregate(cur, prev, decode(prev.opcode), s.ThreadSwitch(cur), cfg, PaEq0);
        UncountedUnchanged(s.ledger, acts, PaEq0);
        ApplyFrame(s.ledger, acts);
        if s.ledger.continueOnError {
          ContinueModeCounts(s.ledger, acts, PaEq0);
        }
      }
    }
  }

  /** The run's final ledger before the PA_EQ_0 rewrite keeps the invariant and never counts PA_EQ_0. */
  lemma RunKeeps(cfg: CheckConfig, f: Features, hasRv64: bool, infos: seq<TraceInfo>, trace: seq<Inst>,
                 decode: nat -> Decoded)
    ensures Consistent(Checked(cfg, f, hasRv64, infos, trace, decode))
    ensures Checked(cfg, f, hasRv64, infos, trace, decode).ErrorCount(PaEq0) == 0
    ensures Checked(cfg, f, hasRv64, infos, trace, decode).ignored == cfg.ignored
    ensures Checked(cfg, f, hasRv64, infos, trace, decode).continueOnError == cfg.continueOnError
    ensures cfg.continueOnError ==> !Checked(cfg, f, hasRv64, infos, trace, decode).halted
  {
    var l0 := NewLedger(cfg.ignored, cfg.continueOnError);
    var header := Apply(l0, HeaderActions(infos));
    NewLedgerConsistent(cfg.ignored, cfg.continueOnError);
    ApplyConsistent(l0, HeaderActions(infos));
    HeaderCounted(infos, PaEq0);
    UncountedUnchanged(l0, HeaderActions(infos), PaEq0);
    ApplyFrame(l0, HeaderActions(infos));
    if cfg.continueOnError {
      ContinueModeCounts(l0, HeaderActions(infos), PaEq0);
    }
    var seed := Seed(trace, header);
    ScanKeeps(seed, trace, decode, cfg);
    var st := Scan(seed, trace, decode, cfg);
    var post := PostScanActions(f, 0, 0, 0, st.embedPteCount, hasRv64, st.memAccessPack);
    ApplyConsistent(st.ledger, post);
    PostScanCounted(f, st.embedPteCount, hasRv64, st.memAccessPack, PaEq0);
    UncountedUnchanged(st.ledger, post, PaEq0);
    ApplyFrame(st.ledger, post);
    if cfg.continueOnError {
      ContinueModeCounts(st.ledger, post, PaEq0);
    }
  }

  /**
   * PA_EQ_0 is never counted, so the final rewrite of a PA_EQ_0 return code
   * to RESERVED_NO_ERROR never takes effect.
   */
  lemma PaEq0NeverReturned(cfg: CheckConfig, f: Features, hasRv64: bool, infos: seq<TraceInfo>, trace: seq<Inst>,
                           decode: nat -> Decoded)
    ensures Run(cfg, f, hasRv64, infos, trace, decode).ErrorCount(PaEq0) == 0
    ensures Run(cfg, f, hasRv64, infos, trace, decode).returnCode != Failed(PaEq0)
  {
    RunKeeps(cfg, f, hasRv64, infos, trace, decode);
  }

  /** What the ledger invariant says about a final ledger. */
  lemma VerdictOf(r: Ledger)
    requires Consistent(r)
    ensures r.returnCode == NoError <==> forall c :: r.ErrorCount(c) == 0
    ensures forall c :: c in r.ignored ==> r.ErrorCount(c) == 0 && r.returnCode != Failed(c)
    ensures r.returnCode.Failed? ==> r.ErrorCount(r.returnCode.code) > 0
    ensures r.returnCode == MultipleErrors ==> r.continueOnError
    ensures r.continueOnError ==>
              (r.returnCode == MultipleErrors <==> exists a, b :: a != b && r.ErrorCount(a) > 0 && r.ErrorCount(b) > 0)
  {
    if r.returnCode != NoError {
      var c :| c in r.counts;
      assert r.ErrorCount(c) > 0;
    }
    if r.returnCode == MultipleErrors {
      var a, b :| a in r.counts && b in r.counts && a != b;
      assert r.ErrorCount(a) > 0 && r.ErrorCount(b) > 0;
    }
    if r.continueOnError {
      ContinueModeVerdict(r);
      if exists a, b :: a != b && r.ErrorCount(a) > 0 && r.ErrorCount(b) > 0 {
        var a, b :| a != b && r.ErrorCount(a) > 0 && r.ErrorCount(b) > 0;
        assert a in r.counts && b in r.counts;
      }
    }
  }

  /**
   * The verdict: the status is RESERVED_NO_ERROR exactly when nothing was
   * counted; an ignored code is never counted nor returned; a single code
   * returned was counted; the multiple-errors sentinel needs continue mode,
   * where it means two distinct codes were counted and the run never halts.
   */
  lemma RunVerdict(cfg: CheckConfig, f: Features, hasRv64: bool, infos: seq<TraceInfo>, trace: seq<Inst>,
                   decode: nat -> Decoded)
    ensures var r := Run(cfg, f, hasRv64, infos, trace, decode);
            && (r.returnCode == NoError <==> forall c :: r.ErrorCount(c) == 0)
            && (forall c :: c in cfg.ignored ==> r.ErrorCount(c) == 0 && r.returnCode != Failed(c))
            && (r.returnCode.Failed? ==> r.ErrorCount(r.returnCode.code) > 0)
            && (r.returnCode == MultipleErrors ==> cfg.continueOnError)
            && (cfg.continueOnError ==>
                  !r.halted &&
                  (r.returnCode == MultipleErrors <==> exists a, b :: a != b && r.ErrorCount(a) > 0 && r.ErrorCount(b) > 0))
  {
    RunKeeps(cfg, f, hasRv64, infos, trace, decode);
    var r := Checked(cfg, f, hasRv64, infos, trace, decode);
    assert Run(cfg, f, hasRv64, infos, trace, decode) == r by {
      VerdictOf(r);
    }
    VerdictOf(r);
  }

  /**
   * Without -c, a run whose record loop did not halt ends at the first
   * post-scan violation on a code that is not ignored: the run halts there,
   * that code is counted once more and no other counter moves; when nothing
   * was counted before, that code is the exit status.
   */
  lemma FailFastRunEndsAtPostScan(cfg: CheckConfig, f: Features, hasRv64: bool, infos: seq<TraceInfo>, trace: seq<Inst>,
                                  decode: nat -> Decoded, k: nat)
    requires !cfg.continueOnError
    requires !Scanned(cfg, infos, trace, decode).ledger.halted
    requires k < |PostScanViolations(f, 0, 0, 0, Scanned(cfg, infos, trace, decode).embedPteCount, hasRv64,
                                     Scanned(cfg, infos, trace, decode).memAccessPack)|
    requires PostScanViolations(f, 0, 0, 0, Scanned(cfg, infos, trace, decode).embedPteCount, hasRv64,
                                Scanned(cfg, infos, trace, decode).memAccessPack)[k] !in cfg.ignored
    requires forall j :: 0 <= j < k ==>
               PostScanViolations(f, 0, 0, 0, Scanned(cfg, infos, trace, decode).embedPteCount, hasRv64,
                                  Scanned(cfg, infos, trace, decode).memAccessPack)[j] in cfg.ignored
    ensures var st := Scanned(cfg, infos, trace, decode);
            var c := PostScanViolations(f, 0, 0, 0, st.embedPteCount, hasRv64, st.memAccessPack)[k];
            var r := Run(cfg, f, hasRv64, infos, trace, decode);
            && r.halted
            && r.ErrorCount(c) == st.ledger.ErrorCount(c) + 1
            && (forall d :: d != c ==> r.ErrorCount(d) == st.ledger.ErrorCount(d))
            && (st.ledger.returnCode == NoError ==> r.returnCode == Failed(c))
  {
    var st := Scanned(cfg, infos, trace, decode);
    ScannedConfig(cfg, infos, trace, decode);
    FailFastPostScan(st.ledger, f, 0, 0, 0, st.embedPteCount, hasRv64, st.memAccessPack, k);
    var c := Apply(st.ledger, PostScanActions(f, 0, 0, 0, st.embedPteCount, hasRv64, st.memAccessPack));
    assert Checked(cfg, f, hasRv64, infos, trace, decode) == c;
    assert c.halted;
  }

  /** The ledger after the record loop keeps the options it was built with. */
  lemma ScannedConfig(cfg: CheckConfig, infos: seq<TraceInfo>, trace: seq<Inst>, decode: nat -> Decoded)
    ensures Scanned(cfg, infos, trace, decode).ledger.ignored == cfg.ignored
    ensures Scanned(cfg, infos, trace, decode).ledger.continueOnError == cfg.continueOnError
  {
    var l0 := NewLedger(cfg.ignored, cfg.continueOnError);
    NewLedgerConsistent(cfg.ignored, cfg.continueOnError);
    ApplyConsistent(l0, HeaderActions(infos));
    HeaderCounted(infos, PaEq0);
    UncountedUnchanged(l0, HeaderActions(infos), PaEq0);
    ApplyFrame(l0, HeaderActions(infos));
    ScanKeeps(Seed(trace, Apply(l0, HeaderActions(infos))), trace, decode, cfg);
  }

  /**
   * Without -c, a trace whose header claims physical addresses, PTEs and RV64
   * and has none of them stops at the first PHYS_ADDR error: that is the one
   * error counted and the exit status.
   */
  lemma FailFastStopsAtFirstPhysAddr(decode: nat -> Decoded)
    ensures var r := Run(CheckConfig(false, false, 0, {}), Features(true, true, true), false, [], [], decode);
            && r.halted
            && r.returnCode == Failed(PhysAddr)
            && r.ErrorCount(PhysAddr) == 1
            && (forall d :: d != PhysAddr ==> r.ErrorCount(d) == 0)
  {
    var cfg := CheckConfig(false, false, 0, {});
    var st := Scanned(cfg, [], [], decode);
    assert st == ScanState(map[], NoThread, 0, 0, NewLedger({}, false), false);
    FailFastRunEndsAtPostScan(cfg, Features(true, true, true), false, [], [], decode, 0);
  }
}
