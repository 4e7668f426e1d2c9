/**
 * The instruction records stf_check reads. The trace reader and the
 * instruction decoder are outside this model: a record carries the values
 * their accessors return, and the decoder is a function from an opcode to
 * its decoded classification.
 */
module StfRecords {

  datatype Option<T> = None | Some(value: T)

  /** The identity that separates interleaved simulated threads: (tid, tgid, asid). */
  datatype ThreadId = ThreadId(tid: nat, tgid: nat, asid: nat)

  /** One memory access record of an instruction. */
  datatype MemAccess = MemAccess(address: nat, size: nat, attr: nat)

  datatype Reg = CsrVl | OtherReg(number: nat)

  /** A source operand: the register it names and its scalar value. */
  datatype Operand = Operand(reg: Reg, scalarValue: nat)

  /** An STFInst as stf_check sees it through its accessors. */
  datatype Inst = Inst(
    index: nat,
    pc: nat,
    opcode: nat,
    opcode16: bool,          // isOpcode16()
    valid: bool,
    id: ThreadId,
    events: seq<nat>,        // fault and abort events
    memReads: seq<MemAccess>,  // getMemoryReads()
    memWrites: seq<MemAccess>, // getMemoryWrites()
    accesses: seq<MemAccess>, // getMemoryAccesses()
    isLoad: bool,
    isStore: bool,
    isTakenBranch: bool,
    isChangeToUserMode: bool,
    isVector: bool,
    sources: seq<Operand>,
    embeddedPtes: nat)       // getEmbeddedPTEs().size()

  /** A default-constructed STFInst, which the thread map yields for an identity it has not seen. */
  const DefaultInst: Inst :=
    Inst(0, 0, 0, false, false, ThreadId(0, 0, 0), [], [], [], [], false, false, false, false, false, [], 0)

  /** What the decoder says about an opcode it has just decoded. */
  datatype Decoded = Decoded(
    failed: bool,
    load: bool,
    store: bool,
    atomic: bool,
    branch: bool,
    conditional: bool,
    exceptionReturn: bool)

  /** The scalar value of the first source operand naming the vector-length CSR. */
  function FirstVl(ops: seq<Operand>): Option<nat>
  {
    if ops == [] then None
    else if ops[0].reg == CsrVl then Some(ops[0].scalarValue)
    else FirstVl(ops[1..])
  }

  /** isVLZero: a vector record whose vector length is zero does no memory access. */
  predicate IsVLZero(inst: Inst)
  {
    inst.isVector && FirstVl(inst.sources) == Some(0)
  }

  /** The position of the first VL operand decides the result; later ones do not. */
  lemma {:induction false} FirstVlAt(ops: seq<Operand>, k: nat)
    requires k < |ops| && ops[k].reg == CsrVl
    requires forall j :: 0 <= j < k ==> ops[j].reg != CsrVl
    ensures FirstVl(ops) == Some(ops[k].scalarValue)
  {
    if k > 0 {
      FirstVlAt(ops[1..], k - 1);
    }
  }

  lemma {:induction false} FirstVlNone(ops: seq<Operand>)
    requires forall j :: 0 <= j < |ops| ==> ops[j].reg != CsrVl
    ensures FirstVl(ops) == None
  {
    if ops != [] {
      FirstVlNone(ops[1..]);
    }
  }

  /** FirstVl is None only when no operand names VL; otherwise it is the value of the first one. */
  lemma {:induction false} FirstVlFound(ops: seq<Operand>)
    ensures FirstVl(ops) == None <==> forall j :: 0 <= j < |ops| ==> ops[j].reg != CsrVl
    ensures FirstVl(ops).Some? ==>
              exists k :: 0 <= k < |ops| && ops[k].reg == CsrVl && ops[k].scalarValue == FirstVl(ops).value &&
                          forall j :: 0 <= j < k ==> ops[j].reg != CsrVl
  {
    if ops != [] {
      FirstVlFound(ops[1..]);
      if ops[0].reg != CsrVl && FirstVl(ops).Some? {
        var k :| 0 <= k < |ops[1..]| && ops[1..][k].reg == CsrVl && ops[1..][k].scalarValue == FirstVl(ops).value &&
                 forall j :: 0 <= j < k ==> ops[1..][j].reg != CsrVl;
        assert ops[k + 1] == ops[1..][k];
        assert forall j :: 0 <= j < k + 1 ==> ops[j].reg != CsrVl by {
          forall j | 0 <= j < k + 1 ensures ops[j].reg != CsrVl {
            if j > 0 { assert ops[j] == ops[1..][j - 1]; }
          }
        }
      }
      if ops[0].reg != CsrVl && (forall j :: 0 <= j < |ops[1..]| ==> ops[1..][j].reg != CsrVl) {
        forall j | 0 <= j < |ops| ensures ops[j].reg != CsrVl {
          if j > 0 { assert ops[j] == ops[1..][j - 1]; }
        }
      }
    }
  }

  /**
   * isVLZero holds exactly for a vector record that has a VL source operand
   * whose first occurrence carries the value 0.
   */
  lemma IsVLZeroIff(inst: Inst)
    ensures IsVLZero(inst) <==>
              inst.isVector &&
              exists k :: 0 <= k < |inst.sources| && inst.sources[k].reg == CsrVl &&
                          inst.sources[k].scalarValue == 0 &&
                          forall j :: 0 <= j < k ==> inst.sources[j].reg != CsrVl
  {
    FirstVlFound(inst.sources);
    if exists k :: 0 <= k < |inst.sources| && inst.sources[k].reg == CsrVl &&
                   inst.sources[k].scalarValue == 0 &&
                   forall j :: 0 <= j < k ==> inst.sources[j].reg != CsrVl {
      var k :| 0 <= k < |inst.sources| && inst.sources[k].reg == CsrVl &&
               inst.sources[k].scalarValue == 0 &&
               forall j :: 0 <= j < k ==> inst.sources[j].reg != CsrVl;
      FirstVlAt(inst.sources, k);
    }
  }

  /** A record that is not a vector one, or has no VL operand, never counts as VL zero. */
  lemma NoVlIsNotZero(inst: Inst)
    requires !inst.isVector || forall j :: 0 <= j < |inst.sources| ==> inst.sources[j].reg != CsrVl
    ensures !IsVLZero(inst)
  {
    if inst.isVector {
      FirstVlNone(inst.sources);
    }
  }

  /** Operands after the first VL operand are ignored. */
  lemma LaterVlIgnored(inst: Inst, k: nat, more: seq<Operand>)
    requires k < |inst.sources| && inst.sources[k].reg == CsrVl
    requires forall j :: 0 <= j < k ==> inst.sources[j].reg != CsrVl
    ensures IsVLZero(inst.(sources := inst.sources[..k + 1] + more)) == IsVLZero(inst)
  {
    var ops := inst.sources[..k + 1] + more;
    assert ops[k] == inst.sources[k];
    FirstVlAt(inst.sources, k);
    FirstVlAt(ops, k);
  }
}
