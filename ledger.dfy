/**
 * The error ledger of stf_check (its ErrorTracker): one counter per error
 * code, a set of ignored codes, the continue-on-error switch and the
 * return code that becomes the process exit status.
 *
 * A ledger operation is an `Action`; the pure `Ledger` value says what each
 * action does, and the class `ErrorTracker` is the mutable object the
 * checker's main loop updates in place.
 */
module ErrorLedger {

  /** The violation kinds the checker can count. */
  datatype ErrorCode =
    | InvalidPc32       // odd pc on a 32-bit instruction
    | InvalidPc16       // odd pc on a 16-bit instruction
    | Header            // missing or malformed trace-info record
    | InvalidInst       // reader marked the record invalid
    | EmbedPte          // CONTAIN_PTE flag disagrees with the embedded PTEs
    | PaEq0             // physical address zero (benign)
    | PaNeVa            // page offsets of PA and VA differ
    | InvalidPhysPc     // obsolete physical pc value
    | PhysAddr          // CONTAIN_PHYSICAL_ADDRESS flag disagrees with the trace
    | PteHeader         // PTEs found in the header
    | Rv64Insts         // CONTAIN_RV64 flag disagrees with the initial IEM
    | DecoderFailure    // opcode of a non-faulting record does not decode
    | MissMem           // a load or store has no memory access record
    | MissMemLoad
    | MissMemStr
    | MemPointToZero    // a memory access at virtual address 0
    | MemAttr           // a memory access with no attribute
    | UncondBr          // an unconditional branch that was not taken
    | SwitchUsr         // switch to user mode without an exception return
    | IneffMemAcc       // tiny accesses split over several records

  /** The return code: RESERVED_NO_ERROR, one code, or the multiple-errors sentinel (exit status 255). */
  datatype Status = NoError | Failed(code: ErrorCode) | MultipleErrors

  /** One call on the ledger: countError or reportError. */
  datatype Action = Count(code: ErrorCode) | Report(code: ErrorCode)

  /**
   * The abstract state of an ErrorTracker. `halted` records that a report in
   * fail-fast mode has ended the run: every later action is without effect.
   */
  datatype Ledger = Ledger(
    counts: map<ErrorCode, nat>,
    ignored: set<ErrorCode>,
    continueOnError: bool,
    returnCode: Status,
    halted: bool)
  {
    /** getErrorCount: zero for a code never counted. */
    function ErrorCount(c: ErrorCode): nat
    {
      if c in counts then counts[c] else 0
    }

    /** countError */
    function CountError(c: ErrorCode): (r: Ledger)
      ensures r.ignored == ignored && r.continueOnError == continueOnError && r.halted == halted
      ensures r.ErrorCount(c) == if halted || c in ignored then ErrorCount(c) else ErrorCount(c) + 1
      ensures forall d :: d != c ==> r.ErrorCount(d) == ErrorCount(d)
      ensures !halted && c !in ignored && returnCode == NoError ==> r.returnCode == Failed(c)
      ensures !continueOnError ==> (returnCode != NoError || halted || c in ignored ==> r.returnCode == returnCode)
      ensures continueOnError && !halted && c !in ignored && returnCode != NoError && returnCode != Failed(c) ==>
                r.returnCode == MultipleErrors
      ensures continueOnError && returnCode == Failed(c) ==> r.returnCode == returnCode
    {
      if halted || c in ignored then this
      else
        this.(counts := counts[c := ErrorCount(c) + 1],
              returnCode :=
                if returnCode == NoError then Failed(c)
                else if continueOnError && returnCode != Failed(c) then MultipleErrors
                else returnCode)
    }

    /** reportError: in fail-fast mode a report on a code that is not ignored ends the run. */
    function ReportError(c: ErrorCode): (r: Ledger)
      ensures r.halted <==> halted || (!continueOnError && c !in ignored)
      ensures r.(halted := halted) == this
    {
      if !halted && !continueOnError && c !in ignored then this.(halted := true) else this
    }

    function Perform(a: Action): Ledger
    {
      match a
      case Count(c) => CountError(c)
      case Report(c) => ReportError(c)
    }
  }

  /** A fresh tracker: nothing counted, return code RESERVED_NO_ERROR. */
  function NewLedger(ignored: set<ErrorCode>, continueOnError: bool): (l: Ledger)
    ensures forall c :: l.ErrorCount(c) == 0
    ensures l.returnCode == NoError && !l.halted
    ensures l.ignored == ignored && l.continueOnError == continueOnError
  {
    Ledger(map[], ignored, continueOnError, NoError, false)
  }

  /** The ledger after the actions `acts`, in order. */
  function Apply(l: Ledger, acts: seq<Action>): Ledger
    decreases |acts|
  {
    if acts == [] then l else Apply(l, acts[..|acts| - 1]).Perform(acts[|acts| - 1])
  }

  /** How many countError calls on `c` the actions make. */
  function Counted(acts: seq<Action>, c: ErrorCode): nat
    decreases |acts|
  {
    if acts == [] then 0
    else Counted(acts[..|acts| - 1], c) + (if acts[|acts| - 1] == Count(c) then 1 else 0)
  }

  lemma {:induction false} CountedConcat(a: seq<Action>, b: seq<Action>, c: ErrorCode)
    ensures Counted(a + b, c) == Counted(a, c) + Counted(b, c)
    decreases |b|
  {
    if b == [] {
      assert a + b == a;
    } else {
      assert (a + b)[..|a + b| - 1] == a + b[..|b| - 1];
      CountedConcat(a, b[..|b| - 1], c);
    }
  }

  lemma {:induction false} ApplyFrame(l: Ledger, acts: seq<Action>)
    ensures Apply(l, acts).ignored == l.ignored
    ensures Apply(l, acts).continueOnError == l.continueOnError
    ensures l.halted ==> Apply(l, acts) == l
    decreases |acts|
  {
    if acts != [] {
      ApplyFrame(l, acts[..|acts| - 1]);
    }
  }

  lemma {:induction false} ApplyConcat(l: Ledger, a: seq<Action>, b: seq<Action>)
    ensures Apply(l, a + b) == Apply(Apply(l, a), b)
    decreases |b|
  {
    if b == [] {
      assert a + b == a;
    } else {
      assert (a + b)[..|a + b| - 1] == a + b[..|b| - 1];
      ApplyConcat(l, a, b[..|b| - 1]);
    }
  }

  lemma ApplySingle(l: Ledger, a: Action)
    ensures Apply(l, [a]) == l.Perform(a)
  {
    assert [a][..0] == [];
  }

  /** A code no action counts keeps its counter. */
  lemma {:induction false} UncountedUnchanged(l: Ledger, acts: seq<Action>, c: ErrorCode)
    requires Counted(acts, c) == 0
    ensures Apply(l, acts).ErrorCount(c) == l.ErrorCount(c)
    decreases |acts|
  {
    if acts != [] {
      UncountedUnchanged(l, acts[..|acts| - 1], c);
    }
  }

  /**
   * The ledger invariant: only codes that are not ignored are counted, the
   * return code is RESERVED_NO_ERROR exactly while nothing is counted, a single
   * code is a counted one, and the multiple-errors sentinel needs continue
   * mode and two distinct counted codes.
   */
  ghost predicate Consistent(l: Ledger)
  {
    && (forall c :: c in l.counts ==> c !in l.ignored && l.counts[c] > 0)
    && (l.returnCode == NoError <==> l.counts == map[])
    && (l.returnCode.Failed? ==> l.returnCode.code in l.counts)
    && (l.returnCode.Failed? && l.continueOnError ==> l.counts.Keys == {l.returnCode.code})
    && (l.returnCode == MultipleErrors ==>
          l.continueOnError && exists a, b :: a in l.counts && b in l.counts && a != b)
  }

  lemma NewLedgerConsistent(ignored: set<ErrorCode>, continueOnError: bool)
    ensures Consistent(NewLedger(ignored, continueOnError))
  {
  }

  lemma PerformConsistent(l: Ledger, a: Action)
    requires Consistent(l)
    ensures Consistent(l.Perform(a))
  {
    match a
    case Report(c) =>
    case Count(c) =>
      if !l.halted && c !in l.ignored {
        var r := l.CountError(c);
        assert c in r.counts;
        if l.returnCode.Failed? && l.continueOnError && l.returnCode.code != c {
          assert l.returnCode.code in r.counts;
        }
        if l.returnCode.Failed? && l.continueOnError && l.returnCode.code == c {
          assert r.counts.Keys == l.counts.Keys;
        }
      }
  }

  /** Every sequence of ledger calls keeps the ledger invariant. */
  lemma {:induction false} ApplyConsistent(l: Ledger, acts: seq<Action>)
    requires Consistent(l)
    ensures Consistent(Apply(l, acts))
    decreases |acts|
  {
    if acts != [] {
      ApplyConsistent(l, acts[..|acts| - 1]);
      PerformConsistent(Apply(l, acts[..|acts| - 1]), acts[|acts| - 1]);
    }
  }

  /** In continue mode the return code is the sentinel exactly when two distinct codes were counted. */
  lemma ContinueModeVerdict(l: Ledger)
    requires Consistent(l) && l.continueOnError
    ensures l.returnCode == MultipleErrors <==> exists a, b :: a in l.counts && b in l.counts && a != b
  {
    if l.returnCode.Failed? {
      assert l.counts.Keys == {l.returnCode.code};
      forall a, b | a in l.counts && b in l.counts ensures a == b {
        assert a in l.counts.Keys && b in l.counts.Keys;
      }
    }
  }

  /** Counters never decrease. */
  lemma {:induction false} CountsMonotone(l: Ledger, acts: seq<Action>, c: ErrorCode)
    ensures Apply(l, acts).ErrorCount(c) >= l.ErrorCount(c)
    decreases |acts|
  {
    if acts != [] {
      CountsMonotone(l, acts[..|acts| - 1], c);
    }
  }

  /** An ignored code is never counted. */
  lemma {:induction false} IgnoredNeverCounted(l: Ledger, acts: seq<Action>, c: ErrorCode)
    requires c in l.ignored
    ensures Apply(l, acts).ErrorCount(c) == l.ErrorCount(c)
    decreases |acts|
  {
    if acts != [] {
      IgnoredNeverCounted(l, acts[..|acts| - 1], c);
      ApplyFrame(l, acts[..|acts| - 1]);
    }
  }

  /**
   * In continue mode nothing halts, and each counter grows by the number of
   * countError calls on its code (by none when the code is ignored).
   */
  lemma {:induction false} ContinueModeCounts(l: Ledger, acts: seq<Action>, c: ErrorCode)
    requires l.continueOnError && !l.halted
    ensures !Apply(l, acts).halted
    ensures Apply(l, acts).ErrorCount(c) ==
            l.ErrorCount(c) + (if c in l.ignored then 0 else Counted(acts, c))
    decreases |acts|
  {
    if acts != [] {
      var init := acts[..|acts| - 1];
      ContinueModeCounts(l, init, c);
      ApplyFrame(l, init);
      PerformContinueMode(Apply(l, init), acts[|acts| - 1], c);
    }
  }

  /** One action in continue mode: no halt, and a count only from a countError on a code that is not ignored. */
  lemma PerformContinueMode(l: Ledger, a: Action, c: ErrorCode)
    requires l.continueOnError && !l.halted
    ensures !l.Perform(a).halted && l.Perform(a).ignored == l.ignored
    ensures l.Perform(a).ErrorCount(c) == l.ErrorCount(c) + (if c in l.ignored || a != Count(c) then 0 else 1)
  {
  }

  /** In fail-fast mode the run halts exactly at the first report on a code that is not ignored. */
  lemma {:induction false} FailFastHalts(l: Ledger, acts: seq<Action>)
    requires !l.continueOnError
    ensures Apply(l, acts).halted <==>
            l.halted || exists k :: 0 <= k < |acts| && acts[k].Report? && acts[k].code !in l.ignored
    decreases |acts|
  {
    if acts != [] {
      var init := acts[..|acts| - 1];
      FailFastHalts(l, init);
      ApplyFrame(l, init);
      if exists k :: 0 <= k < |init| && init[k].Report? && init[k].code !in l.ignored {
        var k :| 0 <= k < |init| && init[k].Report? && init[k].code !in l.ignored;
        assert acts[k] == init[k];
      }
      if exists k :: 0 <= k < |acts| && acts[k].Report? && acts[k].code !in l.ignored {
        var k :| 0 <= k < |acts| && acts[k].Report? && acts[k].code !in l.ignored;
        if k < |init| {
          assert init[k] == acts[k];
        }
      }
    }
  }

  /** In fail-fast mode a return code, once set, never changes. */
  lemma {:induction false} FailFastKeepsCode(l: Ledger, acts: seq<Action>)
    requires !l.continueOnError && l.returnCode != NoError
    ensures Apply(l, acts).returnCode == l.returnCode
    decreases |acts|
  {
    if acts != [] {
      FailFastKeepsCode(l, acts[..|acts| - 1]);
      ApplyFrame(l, acts[..|acts| - 1]);
    }
  }

  lemma {:induction false} IgnoredActionsChangeNothing(l: Ledger, acts: seq<Action>)
    requires forall j :: 0 <= j < |acts| ==> acts[j].code in l.ignored
    ensures Apply(l, acts) == l
    decreases |acts|
  {
    if acts != [] {
      IgnoredActionsChangeNothing(l, acts[..|acts| - 1]);
    }
  }

  /**
   * In fail-fast mode the final return code is the code of the first
   * countError call on a code that is not ignored.
   */
  lemma FailFastFirstCode(l: Ledger, acts: seq<Action>, k: nat)
    requires !l.continueOnError && l.returnCode == NoError && !l.halted
    requires k < |acts| && acts[k].Count? && acts[k].code !in l.ignored
    requires forall j :: 0 <= j < k ==> acts[j].code in l.ignored
    ensures Apply(l, acts).returnCode == Failed(acts[k].code)
  {
    var before := acts[..k];
    IgnoredActionsChangeNothing(l, before);
    assert acts[..k + 1][..k] == before;
    var l1 := Apply(l, acts[..k + 1]);
    assert l1.returnCode == Failed(acts[k].code);
    assert acts == acts[..k + 1] + acts[k + 1..];
    ApplyConcat(l, acts[..k + 1], acts[k + 1..]);
    ApplyFrame(l, acts[..k + 1]);
    FailFastKeepsCode(l1, acts[k + 1..]);
  }

  /** The mutable ErrorTracker of stf_check. */
  class ErrorTracker {
    var counts: map<ErrorCode, nat>
    const ignored: set<ErrorCode>
    const continueOnError: bool
    var returnCode: Status
    var halted: bool

    function State(): Ledger
      reads this
    {
      Ledger(counts, ignored, continueOnError, returnCode, halted)
    }

    constructor (ignored: set<ErrorCode>, continueOnError: bool)
      ensures State() == NewLedger(ignored, continueOnError)
    {
      this.counts := map[];
      this.ignored := ignored;
      this.continueOnError := continueOnError;
      this.returnCode := NoError;
      this.halted := false;
    }

    method CountError(c: ErrorCode)
      modifies this
      ensures State() == old(State()).CountError(c)
    {
      if !halted && c !in ignored {
        counts := counts[c := if c in counts then counts[c] + 1 else 1];
        if returnCode == NoError {
          returnCode := Failed(c);
        } else if continueOnError && returnCode != Failed(c) {
          returnCode := MultipleErrors;
        }
      }
    }

    method ReportError(c: ErrorCode)
      modifies this
      ensures State() == old(State()).ReportError(c)
    {
      if !halted && !continueOnError && c !in ignored {
        halted := true;
      }
    }

    method GetReturnCode() returns (s: Status)
      ensures s == State().returnCode
    {
      s := returnCode;
    }

    method SetReturnCode(s: Status)
      modifies this
      ensures State() == old(State()).(returnCode := s)
    {
      returnCode := s;
    }

    method ContinueOnError() returns (b: bool)
      ensures b == State().continueOnError
    {
      b := continueOnError;
    }

    method GetErrorCount(c: ErrorCode) returns (n: nat)
      ensures n == State().ErrorCount(c)
    {
      n := if c in counts then counts[c] else 0;
    }
  }
}
