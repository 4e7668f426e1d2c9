/**
 * The comparison loops of stf_diff: where each trace's comparison starts,
 * the streaming diff that walks two traces with two cursors, and the
 * extraction of one trace into a vector for the unified diff.
 *
 * A record carries what these loops read of an instruction: its pc, whether
 * it is kernel code, whether it decodes as a markpoint or a tracepoint, and
 * `view`, the STFDiffInst built from it under the configured options. Two
 * views are compared with the type's own equality.
 */
module StfDiff {

  /** The value of last_user_pc before any record is kept: the largest uint64. */
  const Sentinel: nat := 0xFFFF_FFFF_FFFF_FFFF

  datatype DiffRecord<V> = DiffRecord(pc: nat, kernel: bool, markpoint: bool, tracepoint: bool, view: V)

  /** The options of stf_diff that these loops read. */
  datatype DiffConfig = DiffConfig(
    start1: nat,               // 1-based start position in trace 1
    start2: nat,
    length: nat,               // 0 for no bound
    diffCount: nat,            // how many differences to report at most
    ignoreKernel: bool,
    markpointedRegion: bool,
    tracepointedRegion: bool)

  // ---------------------------------------------------------------------
  // getBeginIterator
  // ---------------------------------------------------------------------

  predicate Marks<V>(r: DiffRecord<V>, markpointed: bool, tracepointed: bool)
  {
    (markpointed && r.markpoint) || (tracepointed && r.tracepoint)
  }

  /** The position just after the first marking record at or after `i`, or the end. */
  function AfterFirstMark<V>(t: seq<DiffRecord<V>>, i: nat, markpointed: bool, tracepointed: bool): (p: nat)
    requires i <= |t|
    ensures i <= p <= |t|
    decreases |t| - i
  {
    if i == |t| then |t|
    else if Marks(t[i], markpointed, tracepointed) then i + 1
    else AfterFirstMark(t, i + 1, markpointed, tracepointed)
  }

  /** Where the comparison of a trace begins, for a 1-based `start`. */
  function BeginPosition<V>(t: seq<DiffRecord<V>>, start: nat, markpointed: bool, tracepointed: bool): (p: nat)
    requires 1 <= start <= |t| + 1
    ensures start - 1 <= p <= |t|
  {
    if markpointed || tracepointed then AfterFirstMark(t, start - 1, markpointed, tracepointed) else start - 1
  }

  lemma {:induction false} AfterFirstMarkSpec<V>(t: seq<DiffRecord<V>>, i: nat, markpointed: bool, tracepointed: bool)
    requires i <= |t|
    ensures var p := AfterFirstMark(t, i, markpointed, tracepointed);
            && i <= p <= |t|
            && (forall j :: i <= j < p - 1 ==> !Marks(t[j], markpointed, tracepointed))
            && ((p > i && Marks(t[p - 1], markpointed, tracepointed)) ||
                (p == |t| && forall j :: i <= j < |t| ==> !Marks(t[j], markpointed, tracepointed)))
    decreases |t| - i
  {
    if i < |t| && !Marks(t[i], markpointed, tracepointed) {
      AfterFirstMarkSpec(t, i + 1, markpointed, tracepointed);
    }
  }

  /**
   * The comparison starts at position start - 1; with the markpoint or
   * tracepoint option it starts just after the first marking record at or
   * after that position, or at the end when there is none.
   */
  lemma BeginPositionSpec<V>(t: seq<DiffRecord<V>>, start: nat, markpointed: bool, tracepointed: bool)
    requires 1 <= start <= |t| + 1
    ensures var p := BeginPosition(t, start, markpointed, tracepointed);
            && start - 1 <= p <= |t|
            && (!(markpointed || tracepointed) ==> p == start - 1)
            && (markpointed || tracepointed ==>
                  (forall j :: start - 1 <= j < p - 1 ==> !Marks(t[j], markpointed, tracepointed)) &&
                  ((p >= start && Marks(t[p - 1], markpointed, tracepointed)) ||
                   (p == |t| && forall j :: start - 1 <= j < |t| ==> !Marks(t[j], markpointed, tracepointed))))
  {
    AfterFirstMarkSpec(t, start - 1, markpointed, tracepointed);
  }

  /** getBeginIterator; a start outside 1 .. |t| + 1 is not a valid iterator position. */
  method GetBeginIterator<V>(start: nat, markpointed: bool, tracepointed: bool, t: seq<DiffRecord<V>>) returns (it: nat)
    requires 1 <= start <= |t| + 1
    ensures it == BeginPosition(t, start, markpointed, tracepointed)
  {
    it := start - 1;
    if markpointed || tracepointed {
      while it != |t|
        invariant start - 1 <= it <= |t|
        invariant AfterFirstMark(t, it, markpointed, tracepointed) == AfterFirstMark(t, start - 1, markpointed, tracepointed)
        decreases |t| - it
      {
        var r := t[it];
        it := it + 1;
        if (markpointed && r.markpoint) || (tracepointed && r.tracepoint) {
          break;
        }
      }
    }
  }

  // ---------------------------------------------------------------------
  // streamingDiff
  // ---------------------------------------------------------------------

  /**
   * The differences the streaming walk counts over the rest of both traces
   * when neither limit stops it: a record left over after the other trace
   * ended is one difference; with `skipKernel` a kernel record is passed over
   * while both traces still have records; two paired records differ when
   * their views differ.
   */
  function Mismatches<V(==)>(a: seq<DiffRecord<V>>, b: seq<DiffRecord<V>>, skipKernel: bool): (m: nat)
    ensures m <= |a| || m <= |b|
    decreases |a| + |b|
  {
    if a == [] && b == [] then 0
    else if a == [] then 1 + Mismatches(a, b[1..], skipKernel)
    else if b == [] then 1 + Mismatches(a[1..], b, skipKernel)
    else if skipKernel && a[0].kernel then Mismatches(a[1..], b, skipKernel)
    else if skipKernel && b[0].kernel then Mismatches(a, b[1..], skipKernel)
    else (if a[0].view != b[0].view then 1 else 0) + Mismatches(a[1..], b[1..], skipKernel)
  }

  function Min(x: nat, y: nat): nat
  {
    if x <= y then x else y
  }

  /** What the streaming walk ends with: differences counted, and steps counted (`count`). */
  datatype WalkResult = WalkResult(diffs: nat, steps: nat)

  /** What was counted so far, followed by the rest of the walk. */
  function Add(done: WalkResult, rest: WalkResult): WalkResult
  {
    WalkResult(done.diffs + rest.diffs, done.steps + rest.steps)
  }

  /**
   * The streaming walk with both of its limits: it stops once `fuel` counted
   * steps are spent (when `bounded`, that is when -l is given), once `cap`
   * differences are found, or once both traces have ended. A kernel record
   * skipped while both traces have records costs no step.
   */
  function Walk<V(==)>(a: seq<DiffRecord<V>>, b: seq<DiffRecord<V>>, skipKernel: bool,
                       bounded: bool, fuel: nat, cap: nat): (w: WalkResult)
    ensures w.diffs <= cap && w.diffs <= w.steps
    ensures bounded ==> w.steps <= fuel
    decreases |a| + |b|
  {
    var fuel' := if bounded && fuel > 0 then fuel - 1 else fuel;
    if (bounded && fuel == 0) || cap == 0 || (a == [] && b == []) then WalkResult(0, 0)
    else if a == [] then Add(WalkResult(1, 1), Walk(a, b[1..], skipKernel, bounded, fuel', cap - 1))
    else if b == [] then Add(WalkResult(1, 1), Walk(a[1..], b, skipKernel, bounded, fuel', cap - 1))
    else if skipKernel && a[0].kernel then Walk(a[1..], b, skipKernel, bounded, fuel, cap)
    else if skipKernel && b[0].kernel then Walk(a, b[1..], skipKernel, bounded, fuel, cap)
    else
      var d := if a[0].view != b[0].view then 1 else 0;
      Add(WalkResult(d, 1), Walk(a[1..], b[1..], skipKernel, bounded, fuel', cap - d))
  }

  /** Stopping early only loses differences: the walk never finds more than `Mismatches`. */
  lemma {:induction false} WalkBelowMismatches<V>(a: seq<DiffRecord<V>>, b: seq<DiffRecord<V>>, skipKernel: bool,
                                                  bounded: bool, fuel: nat, cap: nat)
    ensures Walk(a, b, skipKernel, bounded, fuel, cap).diffs <= Mismatches(a, b, skipKernel)
    decreases |a| + |b|, 1
  {
    if (bounded && fuel == 0) || cap == 0 || (a == [] && b == []) {
    } else if a == [] {
      WalkBelowFirstEnded(a, b, skipKernel, bounded, fuel, cap);
    } else if b == [] {
      WalkBelowSecondEnded(a, b, skipKernel, bounded, fuel, cap);
    } else if skipKernel && (a[0].kernel || b[0].kernel) {
      WalkBelowSkip(a, b, bounded, fuel, cap);
    } else {
      WalkBelowPair(a, b, skipKernel, bounded, fuel, cap);
    }
  }

  lemma {:induction false} WalkBelowFirstEnded<V>(a: seq<DiffRecord<V>>, b: seq<DiffRecord<V>>, skipKernel: bool,
                                                  bounded: bool, fuel: nat, cap: nat)
    requires !(bounded && fuel == 0) && cap > 0 && a == [] && b != []
    ensures Walk(a, b, skipKernel, bounded, fuel, cap).diffs <= Mismatches(a, b, skipKernel)
    decreases |a| + |b|, 0
  {
    var fuel' := if bounded then fuel - 1 else fuel;
    assert Walk(a, b, skipKernel, bounded, fuel, cap) == Add(WalkResult(1, 1), Walk(a, b[1..], skipKernel, bounded, fuel', cap - 1));
    assert Mismatches(a, b, skipKernel) == 1 + Mismatches(a, b[1..], skipKernel);
    WalkBelowMismatches(a, b[1..], skipKernel, bounded, fuel', cap - 1);
  }

  lemma {:induction false} WalkBelowSecondEnded<V>(a: seq<DiffRecord<V>>, b: seq<DiffRecord<V>>, skipKernel: bool,
                                                   bounded: bool, fuel: nat, cap: nat)
    requires !(bounded && fuel == 0) && cap > 0 && a != [] && b == []
    ensures Walk(a, b, skipKernel, bounded, fuel, cap).diffs <= Mismatches(a, b, skipKernel)
    decreases |a| + |b|, 0
  {
    var fuel' := if bounded then fuel - 1 else fuel;
    assert Walk(a, b, skipKernel, bounded, fuel, cap) == Add(WalkResult(1, 1), Walk(a[1..], b, skipKernel, bounded, fuel', cap - 1));
    assert Mismatches(a, b, skipKernel) == 1 + Mismatches(a[1..], b, skipKernel);
    WalkBelowMismatches(a[1..], b, skipKernel, bounded, fuel', cap - 1);
  }

  lemma {:induction false} WalkBelowSkip<V>(a: seq<DiffRecord<V>>, b: seq<DiffRecord<V>>,
                                            bounded: bool, fuel: nat, cap: nat)
    requires !(bounded && fuel == 0) && cap > 0 && a != [] && b != [] && (a[0].kernel || b[0].kernel)
    ensures Walk(a, b, true, bounded, fuel, cap).diffs <= Mismatches(a, b, true)
    decreases |a| + |b|, 0
  {
    var a', b' := if a[0].kernel then a[1..] else a, if a[0].kernel then b else b[1..];
    assert Walk(a, b, true, bounded, fuel, cap) == Walk(a', b', true, bounded, fuel, cap);
    assert Mismatches(a, b, true) == Mismatches(a', b', true);
    WalkBelowMismatches(a', b', true, bounded, fuel, cap);
  }

  lemma {:induction false} WalkBelowPair<V>(a: seq<DiffRecord<V>>, b: seq<DiffRecord<V>>, skipKernel: bool,
                                            bounded: bool, fuel: nat, cap: nat)
    requires !(bounded && fuel == 0) && cap > 0 && a != [] && b != [] && !(skipKernel && (a[0].kernel || b[0].kernel))
    ensures Walk(a, b, skipKernel, bounded, fuel, cap).diffs <= Mismatches(a, b, skipKernel)
    decreases |a| + |b|, 0
  {
    var fuel' := if bounded then fuel - 1 else fuel;
    var d := if a[0].view != b[0].view then 1 else 0;
    assert Walk(a, b, skipKernel, bounded, fuel, cap) ==
           Add(WalkResult(d, 1), Walk(a[1..], b[1..], skipKernel, bounded, fuel', cap - d));
    assert Mismatches(a, b, skipKernel) == d + Mismatches(a[1..], b[1..], skipKernel);
    WalkBelowMismatches(a[1..], b[1..], skipKernel, bounded, fuel', cap - d);
  }

  /**
   * A walk that did not run out of steps finds every difference up to the
   * cap; without -l it is `Mismatches` capped at `cap`.
   */
  lemma {:induction false} WalkFindsMismatches<V>(a: seq<DiffRecord<V>>, b: seq<DiffRecord<V>>, skipKernel: bool,
                                                  bounded: bool, fuel: nat, cap: nat)
    requires !bounded || Walk(a, b, skipKernel, bounded, fuel, cap).steps < fuel
    ensures Walk(a, b, skipKernel, bounded, fuel, cap).diffs == Min(cap, Mismatches(a, b, skipKernel))
    decreases |a| + |b|, 1
  {
    if (bounded && fuel == 0) || cap == 0 || (a == [] && b == []) {
    } else if a == [] {
      WalkFindsFirstEnded(a, b, skipKernel, bounded, fuel, cap);
    } else if b == [] {
      WalkFindsSecondEnded(a, b, skipKernel, bounded, fuel, cap);
    } else if skipKernel && (a[0].kernel || b[0].kernel) {
      WalkFindsSkip(a, b, bounded, fuel, cap);
    } else {
      WalkFindsPair(a, b, skipKernel, bounded, fuel, cap);
    }
  }

  /** The cap moves with what was found: d + min(cap - d, m) == min(cap, d + m). */
  lemma MinShift(d: nat, cap: nat, m: nat)
    requires d <= cap
    ensures d + Min(cap - d, m) == Min(cap, d + m)
  {
  }

  lemma {:induction false} WalkFindsFirstEnded<V>(a: seq<DiffRecord<V>>, b: seq<DiffRecord<V>>, skipKernel: bool,
                                                  bounded: bool, fuel: nat, cap: nat)
    requires !(bounded && fuel == 0) && cap > 0 && a == [] && b != []
    requires !bounded || Walk(a, b, skipKernel, bounded, fuel, cap).steps < fuel
    ensures Walk(a, b, skipKernel, bounded, fuel, cap).diffs == Min(cap, Mismatches(a, b, skipKernel))
    decreases |a| + |b|, 0
  {
    var fuel' := if bounded then fuel - 1 else fuel;
    assert Walk(a, b, skipKernel, bounded, fuel, cap) == Add(WalkResult(1, 1), Walk(a, b[1..], skipKernel, bounded, fuel', cap - 1));
    assert Mismatches(a, b, skipKernel) == 1 + Mismatches(a, b[1..], skipKernel);
    WalkFindsMismatches(a, b[1..], skipKernel, bounded, fuel', cap - 1);
    MinShift(1, cap, Mismatches(a, b[1..], skipKernel));
  }

  lemma {:induction false} WalkFindsSecondEnded<V>(a: seq<DiffRecord<V>>, b: seq<DiffRecord<V>>, skipKernel: bool,
                                                   bounded: bool, fuel: nat, cap: nat)
    requires !(bounded && fuel == 0) && cap > 0 && a != [] && b == []
    requires !bounded || Walk(a, b, skipKernel, bounded, fuel, cap).steps < fuel
    ensures Walk(a, b, skipKernel, bounded, fuel, cap).diffs == Min(cap, Mismatches(a, b, skipKernel))
    decreases |a| + |b|, 0
  {
    var fuel' := if bounded then fuel - 1 else fuel;
    assert Walk(a, b, skipKernel, bounded, fuel, cap) == Add(WalkResult(1, 1), Walk(a[1..], b, skipKernel, bounded, fuel', cap - 1));
    assert Mismatches(a, b, skipKernel) == 1 + Mismatches(a[1..], b, skipKernel);
    WalkFindsMismatches(a[1..], b, skipKernel, bounded, fuel', cap - 1);
    MinShift(1, cap, Mismatches(a[1..], b, skipKernel));
  }

  lemma {:induction false} WalkFindsSkip<V>(a: seq<DiffRecord<V>>, b: seq<DiffRecord<V>>,
                                            bounded: bool, fuel: nat, cap: nat)
    requires !(bounded && fuel == 0) && cap > 0 && a != [] && b != [] && (a[0].kernel || b[0].kernel)
    requires !bounded || Walk(a, b, true, bounded, fuel, cap).steps < fuel
    ensures Walk(a, b, true, bounded, fuel, cap).diffs == Min(cap, Mismatches(a, b, true))
    decreases |a| + |b|, 0
  {
    var a', b' := if a[0].kernel then a[1..] else a, if a[0].kernel then b else b[1..];
    assert Walk(a, b, true, bounded, fuel, cap) == Walk(a', b', true, bounded, fuel, cap);
    assert Mismatches(a, b, true) == Mismatches(a', b', true);
    WalkFindsMismatches(a', b', true, bounded, fuel, cap);
  }

  lemma {:induction false} WalkFindsPair<V>(a: seq<DiffRecord<V>>, b: seq<DiffRecord<V>>, skipKernel: bool,
                                            bounded: bool, fuel: nat, cap: nat)
    requires !(bounded && fuel == 0) && cap > 0 && a != [] && b != [] && !(skipKernel && (a[0].kernel || b[0].kernel))
    requires !bounded || Walk(a, b, skipKernel, bounded, fuel, cap).steps < fuel
    ensures Walk(a, b, skipKernel, bounded, fuel, cap).diffs == Min(cap, Mismatches(a, b, skipKernel))
    decreases |a| + |b|, 0
  {
    var fuel' := if bounded then fuel - 1 else fuel;
    var d := if a[0].view != b[0].view then 1 else 0;
    assert Walk(a, b, skipKernel, bounded, fuel, cap) ==
           Add(WalkResult(d, 1), Walk(a[1..], b[1..], skipKernel, bounded, fuel', cap - d));
    assert Mismatches(a, b, skipKernel) == d + Mismatches(a[1..], b[1..], skipKernel);
    assert !bounded || Walk(a[1..], b[1..], skipKernel, bounded, fuel', cap - d).steps < fuel';
    WalkFindsMismatches(a[1..], b[1..], skipKernel, bounded, fuel', cap - d);
    MinShift(d, cap, Mismatches(a[1..], b[1..], skipKernel));
  }

  /** Without kernel skipping or -l, and with a cap above the longer trace, every record position is one step. */
  lemma {:induction false} WalkStepsPlain<V>(a: seq<DiffRecord<V>>, b: seq<DiffRecord<V>>, fuel: nat, cap: nat)
    requires cap > |a| && cap > |b|
    ensures Walk(a, b, false, false, fuel, cap).steps == if |a| >= |b| then |a| else |b|
    decreases |a| + |b|
  {
    if a == [] && b == [] {
    } else if a == [] {
      assert Walk(a, b, false, false, fuel, cap) == Add(WalkResult(1, 1), Walk(a, b[1..], false, false, fuel, cap - 1));
      WalkStepsPlain(a, b[1..], fuel, cap - 1);
    } else if b == [] {
      assert Walk(a, b, false, false, fuel, cap) == Add(WalkResult(1, 1), Walk(a[1..], b, false, false, fuel, cap - 1));
      WalkStepsPlain(a[1..], b, fuel, cap - 1);
    } else {
      var d := if a[0].view != b[0].view then 1 else 0;
      assert Walk(a, b, false, false, fuel, cap) == Add(WalkResult(d, 1), Walk(a[1..], b[1..], false, false, fuel, cap - d));
      WalkStepsPlain(a[1..], b[1..], fuel, cap - d);
    }
  }

  /**
   * A kernel record skipped while the other trace still has records costs
   * nothing: neither a difference nor a step of -l. On trace 2's side this
   * holds when trace 1's next record is user code, which is compared first.
   */
  lemma KernelSkipIsFree<V>(k: DiffRecord<V>, a: seq<DiffRecord<V>>, b: seq<DiffRecord<V>>,
                            bounded: bool, fuel: nat, cap: nat)
    requires k.kernel
    ensures b != [] ==> Walk([k] + a, b, true, bounded, fuel, cap) == Walk(a, b, true, bounded, fuel, cap)
    ensures a != [] && !a[0].kernel ==> Walk(a, [k] + b, true, bounded, fuel, cap) == Walk(a, b, true, bounded, fuel, cap)
  {
    assert ([k] + a)[1..] == a && ([k] + b)[1..] == b;
  }

  /**
   * streamingDiff. `ok` is false when the two instruction sets differ (the
   * assertion that throws). Otherwise the difference count and `count` are
   * those of the walk from the two begin positions, with -l as its step
   * bound and -n as its cap; `ret` is 1 exactly when a difference was
   * counted. When -l did not stop the walk, the count is the full number of
   * differences capped at -n.
   */
  method StreamingDiff<V(==)>(cfg: DiffConfig, isa1: nat, t1: seq<DiffRecord<V>>, isa2: nat, t2: seq<DiffRecord<V>>)
    returns (ok: bool, ret: nat, diffCount: nat, count: nat)
    requires 1 <= cfg.start1 <= |t1| + 1 && 1 <= cfg.start2 <= |t2| + 1
    ensures ok <==> isa1 == isa2
    ensures !ok ==> ret == 0 && diffCount == 0 && count == 0
    ensures ret == if diffCount > 0 then 1 else 0
    ensures ok ==>
              Walk(t1[BeginPosition(t1, cfg.start1, cfg.markpointedRegion, cfg.tracepointedRegion)..],
                   t2[BeginPosition(t2, cfg.start2, cfg.markpointedRegion, cfg.tracepointedRegion)..],
                   cfg.ignoreKernel, cfg.length != 0, cfg.length, cfg.diffCount) == WalkResult(diffCount, count)
    ensures diffCount <= cfg.diffCount
    ensures diffCount <= Mismatches(t1[BeginPosition(t1, cfg.start1, cfg.markpointedRegion, cfg.tracepointedRegion)..],
                                    t2[BeginPosition(t2, cfg.start2, cfg.markpointedRegion, cfg.tracepointedRegion)..],
                                    cfg.ignoreKernel)
    ensures cfg.length != 0 ==> count <= cfg.length
    ensures ok && (cfg.length == 0 || count < cfg.length) ==>
              diffCount == Min(cfg.diffCount,
                               Mismatches(t1[BeginPosition(t1, cfg.start1, cfg.markpointedRegion, cfg.tracepointedRegion)..],
                                          t2[BeginPosition(t2, cfg.start2, cfg.markpointedRegion, cfg.tracepointedRegion)..],
                                          cfg.ignoreKernel))
  {
    var i1 := GetBeginIterator(cfg.start1, cfg.markpointedRegion, cfg.tracepointedRegion, t1);
    var i2 := GetBeginIterator(cfg.start2, cfg.markpointedRegion, cfg.tracepointedRegion, t2);
    if isa1 != isa2 {
      return false, 0, 0, 0;
    }
    ok := true;
    diffCount, count := DiffLoop(cfg, t1, t2, i1, i2);
    WalkBelowMismatches(t1[i1..], t2[i2..], cfg.ignoreKernel, cfg.length != 0, cfg.length, cfg.diffCount);
    if cfg.length == 0 || count < cfg.length {
      WalkFindsMismatches(t1[i1..], t2[i2..], cfg.ignoreKernel, cfg.length != 0, cfg.length, cfg.diffCount);
    }
    ret := if diffCount > 0 then 1 else 0;
  }

  /** streamingDiff's loop from cursors `i1` and `i2`: it counts what `Walk` describes. */
  method DiffLoop<V(==)>(cfg: DiffConfig, t1: seq<DiffRecord<V>>, t2: seq<DiffRecord<V>>, i1: nat, i2: nat)
    returns (diffCount: nat, count: nat)
    requires i1 <= |t1| && i2 <= |t2|
    ensures WalkResult(diffCount, count) == Walk(t1[i1..], t2[i2..], cfg.ignoreKernel, cfg.length != 0, cfg.length, cfg.diffCount)
  {
    count, diffCount := 0, 0;
    var j1: nat, j2: nat := i1, i2;
    ghost var w0 := WalkFrom(cfg, t1, t2, i1, i2, 0, 0);
    var stop := false;
    while (cfg.length == 0 || count < cfg.length) && !stop
      invariant j1 <= |t1| && j2 <= |t2|
      invariant diffCount <= cfg.diffCount
      invariant cfg.length != 0 ==> count <= cfg.length
      invariant stop ==> j1 == |t1| && j2 == |t2|
      invariant Add(WalkResult(diffCount, count), WalkFrom(cfg, t1, t2, j1, j2, diffCount, count)) == w0
      decreases (|t1| - j1) + (|t2| - j2), !stop
    {
      if diffCount >= cfg.diffCount {
        break;
      }
      j1, j2, diffCount, count, stop := DiffStep(cfg, t1, t2, j1, j2, diffCount, count);
    }
  }

  /** The rest of the walk from cursors `i1` and `i2` once `diffCount` differences and `count` steps are counted. */
  ghost function WalkFrom<V>(cfg: DiffConfig, t1: seq<DiffRecord<V>>, t2: seq<DiffRecord<V>>, i1: nat, i2: nat,
                                 diffCount: nat, count: nat): WalkResult
    requires i1 <= |t1| && i2 <= |t2| && diffCount <= cfg.diffCount
    requires cfg.length != 0 ==> count <= cfg.length
  {
    Walk(t1[i1..], t2[i2..], cfg.ignoreKernel, cfg.length != 0,
         if cfg.length != 0 then cfg.length - count else cfg.length, cfg.diffCount - diffCount)
  }

  /** The walk from the cursors once trace 1 has ended: trace 2's next record is one counted difference. */
  lemma WalkFromFirstEnded<V>(cfg: DiffConfig, t1: seq<DiffRecord<V>>, t2: seq<DiffRecord<V>>, i1: nat, i2: nat,
                              diffCount: nat, count: nat)
    requires i1 == |t1| && i2 < |t2| && diffCount < cfg.diffCount
    requires cfg.length != 0 ==> count < cfg.length
    ensures Add(WalkResult(diffCount, count), WalkFrom(cfg, t1, t2, i1, i2, diffCount, count)) ==
            Add(WalkResult(diffCount + 1, count + 1), WalkFrom(cfg, t1, t2, i1, i2 + 1, diffCount + 1, count + 1))
  {
    var a, b := t1[i1..], t2[i2..];
    assert a == [];
    assert b[1..] == t2[i2 + 1..];
    var fuel := if cfg.length != 0 then cfg.length - count else cfg.length;
    var fuel' := if cfg.length != 0 then fuel - 1 else fuel;
    assert WalkFrom(cfg, t1, t2, i1, i2, diffCount, count) ==
           Add(WalkResult(1, 1), Walk(a, b[1..], cfg.ignoreKernel, cfg.length != 0, fuel', cfg.diffCount - diffCount - 1));
  }

  /** The walk from the cursors once trace 2 has ended: trace 1's next record is one counted difference. */
  lemma WalkFromSecondEnded<V>(cfg: DiffConfig, t1: seq<DiffRecord<V>>, t2: seq<DiffRecord<V>>, i1: nat, i2: nat,
                               diffCount: nat, count: nat)
    requires i1 < |t1| && i2 == |t2| && diffCount < cfg.diffCount
    requires cfg.length != 0 ==> count < cfg.length
    ensures Add(WalkResult(diffCount, count), WalkFrom(cfg, t1, t2, i1, i2, diffCount, count)) ==
            Add(WalkResult(diffCount + 1, count + 1), WalkFrom(cfg, t1, t2, i1 + 1, i2, diffCount + 1, count + 1))
  {
    var a, b := t1[i1..], t2[i2..];
    assert b == [];
    assert a[1..] == t1[i1 + 1..];
    var fuel := if cfg.length != 0 then cfg.length - count else cfg.length;
    var fuel' := if cfg.length != 0 then fuel - 1 else fuel;
    assert WalkFrom(cfg, t1, t2, i1, i2, diffCount, count) ==
           Add(WalkResult(1, 1), Walk(a[1..], b, cfg.ignoreKernel, cfg.length != 0, fuel', cfg.diffCount - diffCount - 1));
  }

  /** The walk from the cursors past a skipped kernel record: nothing is counted. */
  lemma WalkFromSkip<V>(cfg: DiffConfig, t1: seq<DiffRecord<V>>, t2: seq<DiffRecord<V>>, i1: nat, i2: nat,
                        diffCount: nat, count: nat)
    requires i1 < |t1| && i2 < |t2| && diffCount < cfg.diffCount
    requires cfg.length != 0 ==> count < cfg.length
    requires cfg.ignoreKernel && (t1[i1].kernel || t2[i2].kernel)
    ensures var i1', i2' := if t1[i1].kernel then i1 + 1 else i1, if t1[i1].kernel then i2 else i2 + 1;
            Add(WalkResult(diffCount, count), WalkFrom(cfg, t1, t2, i1, i2, diffCount, count)) ==
            Add(WalkResult(diffCount, count), WalkFrom(cfg, t1, t2, i1', i2', diffCount, count))
  {
    var a, b := t1[i1..], t2[i2..];
    assert a[1..] == t1[i1 + 1..];
    assert b[1..] == t2[i2 + 1..];
  }

  /** The walk from the cursors over one compared pair: one step, and a difference when the views differ. */
  lemma WalkFromPair<V>(cfg: DiffConfig, t1: seq<DiffRecord<V>>, t2: seq<DiffRecord<V>>, i1: nat, i2: nat,
                        diffCount: nat, count: nat)
    requires i1 < |t1| && i2 < |t2| && diffCount < cfg.diffCount
    requires cfg.length != 0 ==> count < cfg.length
    requires !(cfg.ignoreKernel && (t1[i1].kernel || t2[i2].kernel))
    ensures var d := if t1[i1].view != t2[i2].view then 1 else 0;
            Add(WalkResult(diffCount, count), WalkFrom(cfg, t1, t2, i1, i2, diffCount, count)) ==
            Add(WalkResult(diffCount + d, count + 1), WalkFrom(cfg, t1, t2, i1 + 1, i2 + 1, diffCount + d, count + 1))
  {
    var a, b := t1[i1..], t2[i2..];
    assert a[1..] == t1[i1 + 1..];
    assert b[1..] == t2[i2 + 1..];
  }

  /**
   * One iteration of streamingDiff's loop, below both limits: it stops when
   * both traces have ended, and otherwise counts or skips one position
   * without changing where the walk ends.
   */
  method DiffStep<V(==)>(cfg: DiffConfig, t1: seq<DiffRecord<V>>, t2: seq<DiffRecord<V>>, i1: nat, i2: nat,
                         diffCount: nat, count: nat)
    returns (i1': nat, i2': nat, diffCount': nat, count': nat, stop: bool)
    requires i1 <= |t1| && i2 <= |t2| && diffCount < cfg.diffCount
    requires cfg.length != 0 ==> count < cfg.length
    ensures i1' <= |t1| && i2' <= |t2| && diffCount' <= cfg.diffCount
    ensures cfg.length != 0 ==> count' <= cfg.length
    ensures stop <==> i1 == |t1| && i2 == |t2|
    ensures stop ==> i1' == i1 && i2' == i2 && diffCount' == diffCount && count' == count
    ensures !stop ==> (|t1| - i1') + (|t2| - i2') < (|t1| - i1) + (|t2| - i2)
    ensures Add(WalkResult(diffCount, count), WalkFrom(cfg, t1, t2, i1, i2, diffCount, count)) ==
            Add(WalkResult(diffCount', count'), WalkFrom(cfg, t1, t2, i1', i2', diffCount', count'))
  {
    i1', i2', diffCount', count', stop := i1, i2, diffCount, count, false;
    if i1 == |t1| {
      if i2 == |t2| {
        return i1, i2, diffCount, count, true;
      }
      WalkFromFirstEnded(cfg, t1, t2, i1, i2, diffCount, count);
      diffCount' := diffCount + 1;
      i2' := i2 + 1;
      count' := count + 1;
      return;
    }
    if i2 == |t2| {
      WalkFromSecondEnded(cfg, t1, t2, i1, i2, diffCount, count);
      diffCount' := diffCount + 1;
      i1' := i1 + 1;
      count' := count + 1;
      return;
    }
    if cfg.ignoreKernel {
      if t1[i1].kernel {
        WalkFromSkip(cfg, t1, t2, i1, i2, diffCount, count);
        i1' := i1 + 1;
        return;
      }
      if t2[i2].kernel {
        WalkFromSkip(cfg, t1, t2, i1, i2, diffCount, count);
        i2' := i2 + 1;
        return;
      }
    }
    WalkFromPair(cfg, t1, t2, i1, i2, diffCount, count);
    if t1[i1].view != t2[i2].view {
      diffCount' := diffCount + 1;
    }
    i1' := i1 + 1;
    i2' := i2 + 1;
    count' := count + 1;
  }

  /** Once one trace has ended, every remaining record of the other is one difference, kernel code or not. */
  lemma {:induction false} MismatchesExhausted<V>(a: seq<DiffRecord<V>>, b: seq<DiffRecord<V>>, skipKernel: bool)
    ensures Mismatches([], b, skipKernel) == |b|
    ensures Mismatches(a, [], skipKernel) == |a|
    decreases |a| + |b|
  {
    if b != [] {
      MismatchesExhausted(a, b[1..], skipKernel);
    }
    if a != [] {
      MismatchesExhausted(a[1..], b, skipKernel);
    }
  }

  /** Without kernel skipping, a trace compared with itself has no difference. */
  lemma {:induction false} MismatchesSelf<V>(a: seq<DiffRecord<V>>)
    ensures Mismatches(a, a, false) == 0
    decreases |a|
  {
    if a != [] {
      MismatchesSelf(a[1..]);
    }
  }

  /** Without kernel skipping, the number of differences does not depend on the order of the traces. */
  lemma {:induction false} MismatchesSymmetric<V>(a: seq<DiffRecord<V>>, b: seq<DiffRecord<V>>)
    ensures Mismatches(a, b, false) == Mismatches(b, a, false)
    decreases |a| + |b|
  {
    if a == [] || b == [] {
      MismatchesExhausted(a, b, false);
      MismatchesExhausted(b, a, false);
    } else {
      MismatchesSymmetric(a[1..], b[1..]);
    }
  }

  /**
   * With kernel skipping as written, two identical traces that end in kernel
   * code differ: the one kernel record of trace 1 is skipped, trace 1 ends,
   * and the same record of trace 2 is then counted as a difference.
   */
  lemma KernelTailCountedAsDifference<V>(r: DiffRecord<V>)
    requires r.kernel
    ensures Mismatches([r], [r], true) == 1
  {
    assert [r][1..] == [];
    MismatchesExhausted([], [r], true);
  }

  /** The user-code records of a trace, in order. */
  function UserRecords<V>(a: seq<DiffRecord<V>>): seq<DiffRecord<V>>
    decreases |a|
  {
    if a == [] then [] else (if a[0].kernel then [] else [a[0]]) + UserRecords(a[1..])
  }

  /**
   * The walk with kernel skipping applied also after one trace has ended:
   * a left-over kernel record is passed over rather than counted.
   */
  function UserMismatches<V(==)>(a: seq<DiffRecord<V>>, b: seq<DiffRecord<V>>, skipKernel: bool): nat
    decreases |a| + |b|
  {
    if a == [] && b == [] then 0
    else if a == [] then (if skipKernel && b[0].kernel then 0 else 1) + UserMismatches(a, b[1..], skipKernel)
    else if b == [] then (if skipKernel && a[0].kernel then 0 else 1) + UserMismatches(a[1..], b, skipKernel)
    else if skipKernel && a[0].kernel then UserMismatches(a[1..], b, skipKernel)
    else if skipKernel && b[0].kernel then UserMismatches(a, b[1..], skipKernel)
    else (if a[0].view != b[0].view then 1 else 0) + UserMismatches(a[1..], b[1..], skipKernel)
  }

  /** One step of `UserRecords`: a kernel record is dropped, a user record kept in front. */
  lemma UserRecordsStep<V>(a: seq<DiffRecord<V>>)
    requires a != []
    ensures a[0].kernel ==> UserRecords(a) == UserRecords(a[1..])
    ensures !a[0].kernel ==> UserRecords(a) != [] && UserRecords(a)[0] == a[0] && UserRecords(a)[1..] == UserRecords(a[1..])
  {
    if !a[0].kernel {
      assert ([a[0]] + UserRecords(a[1..]))[1..] == UserRecords(a[1..]);
    }
  }

  /**
   * With kernel skipping, the corrected walk compares exactly the user-code
   * records of the two traces; without it, it is the walk as written.
   */
  lemma UserMismatchesIsUserDiff<V>(a: seq<DiffRecord<V>>, b: seq<DiffRecord<V>>)
    ensures UserMismatches(a, b, true) == Mismatches(UserRecords(a), UserRecords(b), false)
    ensures UserMismatches(a, b, false) == Mismatches(a, b, false)
  {
    UserMismatchesSkipping(a, b);
    UserMismatchesPlain(a, b);
  }

  lemma {:induction false} UserMismatchesPlain<V>(a: seq<DiffRecord<V>>, b: seq<DiffRecord<V>>)
    ensures UserMismatches(a, b, false) == Mismatches(a, b, false)
    decreases |a| + |b|
  {
    if a == [] && b == [] {
    } else if a == [] {
      UserMismatchesPlain(a, b[1..]);
    } else if b == [] {
      UserMismatchesPlain(a[1..], b);
    } else {
      UserMismatchesPlain(a[1..], b[1..]);
    }
  }

  lemma {:induction false} UserMismatchesSkipping<V>(a: seq<DiffRecord<V>>, b: seq<DiffRecord<V>>)
    ensures UserMismatches(a, b, true) == Mismatches(UserRecords(a), UserRecords(b), false)
    decreases |a| + |b|
  {
    if a == [] && b == [] {
    } else if a == [] {
      UserMismatchesSkipping(a, b[1..]);
      UserRecordsStep(b);
    } else if b == [] {
      UserMismatchesSkipping(a[1..], b);
      UserRecordsStep(a);
    } else if a[0].kernel {
      UserMismatchesSkipping(a[1..], b);
      UserRecordsStep(a);
    } else if b[0].kernel {
      UserMismatchesSkipping(a, b[1..]);
      UserRecordsStep(b);
    } else {
      UserMismatchesSkipping(a[1..], b[1..]);
      UserRecordsStep(a);
      UserRecordsStep(b);
    }
  }

  /** The corrected walk finds no difference between a trace and itself, kernel skipping or not. */
  lemma UserMismatchesSelf<V>(a: seq<DiffRecord<V>>, skipKernel: bool)
    ensures UserMismatches(a, a, skipKernel) == 0
  {
    UserMismatchesIsUserDiff(a, a);
    MismatchesSelf(UserRecords(a));
    MismatchesSelf(a);
  }

  // ---------------------------------------------------------------------
  // extractInstructions
  // ---------------------------------------------------------------------

  /** The DiffInstVec the unified diff compares. */
  class InstVec<V> {
    var items: seq<V>

    constructor ()
      ensures items == []
    {
      items := [];
    }

    method PushBack(v: V)
      modifies this
      ensures items == old(items) + [v]
    {
      items := items + [v];
    }

    /** pop_back on an empty vector is undefined, so it is excluded. */
    method PopBack()
      requires items != []
      modifies this
      ensures items == old(items)[..|old(items)| - 1]
    {
      items := items[..|items| - 1];
    }
  }

  /** The state of the extraction loop: the vector, last_user_pc, count, and whether the length bound stopped it. */
  datatype ExtractState<V> = ExtractState(items: seq<V>, lastUserPc: nat, count: int, done: bool)

  /** One record of the extraction loop. */
  function ExtractStep<V>(s: ExtractState<V>, r: DiffRecord<V>, cfg: DiffConfig): (e: ExtractState<V>)
    ensures |e.items| <= |s.items| + 1
    ensures e == s || (e.items != [] && e.items[|e.items| - 1] == r.view && e.lastUserPc == r.pc)
  {
    if cfg.ignoreKernel && r.kernel then s
    else
      var replace := cfg.ignoreKernel && r.pc == s.lastUserPc;
      var kept := if replace && s.items != [] then s.items[..|s.items| - 1] else s.items;
      var count := (if replace then s.count - 1 else s.count) + 1;
      ExtractState(kept + [r.view], r.pc, count, cfg.length != 0 && count >= cfg.length)
  }

  /** The extraction loop over `recs`, which stops once the length bound is reached; each record adds at most one entry. */
  function Extract<V>(s: ExtractState<V>, recs: seq<DiffRecord<V>>, cfg: DiffConfig): (e: ExtractState<V>)
    ensures |e.items| <= |s.items| + |recs|
    decreases |recs|
  {
    if recs == [] then s
    else
      var e := Extract(s, recs[..|recs| - 1], cfg);
      if e.done then e else ExtractStep(e, recs[|recs| - 1], cfg)
  }

  /** The first user-code record has the sentinel pc; last_user_pc then matches before anything was kept. */
  predicate StartsAtSentinel<V>(recs: seq<DiffRecord<V>>)
  {
    exists k :: 0 <= k < |recs| && !recs[k].kernel && recs[k].pc == Sentinel &&
                forall j :: 0 <= j < k ==> recs[j].kernel
  }

  lemma ExtractLast<V>(s: ExtractState<V>, recs: seq<DiffRecord<V>>, i: nat, cfg: DiffConfig)
    requires i < |recs|
    ensures Extract(s, recs[..i + 1], cfg) ==
            var e := Extract(s, recs[..i], cfg); if e.done then e else ExtractStep(e, recs[i], cfg)
  {
    assert recs[..i + 1][..i] == recs[..i];
  }

  lemma {:induction false} ExtractPrefixDone<V>(s: ExtractState<V>, recs: seq<DiffRecord<V>>, i: nat, cfg: DiffConfig)
    requires i <= |recs|
    requires i == |recs| || Extract(s, recs[..i], cfg).done
    ensures Extract(s, recs, cfg) == Extract(s, recs[..i], cfg)
    decreases |recs|
  {
    if i < |recs| {
      var init := recs[..|recs| - 1];
      assert init[..i] == recs[..i];
      ExtractPrefixDone(s, init, i, cfg);
    } else {
      assert recs[..i] == recs;
    }
  }

  /**
   * extractInstructions: appends to `vec` the views of the records from the
   * begin position on, as `Extract` describes. With kernel skipping, a first
   * user record whose pc is the sentinel would pop from an empty vector, so
   * it is excluded when the vector starts empty.
   */
  method ExtractInstructions<V>(vec: InstVec<V>, t: seq<DiffRecord<V>>, start: nat, cfg: DiffConfig)
    requires 1 <= start <= |t| + 1
    requires cfg.ignoreKernel && vec.items == [] ==>
               !StartsAtSentinel(t[BeginPosition(t, start, cfg.markpointedRegion, cfg.tracepointedRegion)..])
    modifies vec
    ensures vec.items ==
            Extract(ExtractState(old(vec.items), Sentinel, 0, false),
                    t[BeginPosition(t, start, cfg.markpointedRegion, cfg.tracepointedRegion)..], cfg).items
  {
    var it := GetBeginIterator(start, cfg.markpointedRegion, cfg.tracepointedRegion, t);
    ghost var begin := it;
    ghost var recs := t[begin..];
    ghost var s0 := ExtractState(vec.items, Sentinel, 0, false);
    ghost var items0 := vec.items;
    var count: int := 0;
    var lastUserPc: nat := Sentinel;
    ghost var userSeen := false;
    ghost var i := 0;
    while it != |t|
      invariant begin <= it <= |t| && i == it - begin
      invariant Extract(s0, recs[..i], cfg) == ExtractState(vec.items, lastUserPc, count, false)
      invariant count == |vec.items| - |items0|
      invariant userSeen ==> vec.items != []
      invariant !userSeen ==> vec.items == items0 && lastUserPc == Sentinel && KernelOnly(recs[..i])
      decreases |t| - it
    {
      ExtractLast(s0, recs, i, cfg);
      assert recs[i] == t[it];
      var r := t[it];
      if !userSeen && cfg.ignoreKernel && !r.kernel && r.pc == Sentinel && items0 == [] {
        KernelPrefixThenSentinel(recs, i);
        assert false;
      }
      if !userSeen && cfg.ignoreKernel && r.kernel {
        KernelOnlySnoc(recs, i);
      }
      var done;
      lastUserPc, count, done := ExtractRecord(vec, r, lastUserPc, count, cfg);
      userSeen := userSeen || !(cfg.ignoreKernel && r.kernel);
      it, i := it + 1, i + 1;
      if done {
        ExtractPrefixDone(s0, recs, i, cfg);
        return;
      }
    }
    ExtractPrefixDone(s0, recs, i, cfg);
  }

  predicate KernelOnly<V>(rs: seq<DiffRecord<V>>)
  {
    forall j :: 0 <= j < |rs| ==> rs[j].kernel
  }

  lemma KernelOnlySnoc<V>(recs: seq<DiffRecord<V>>, i: nat)
    requires i < |recs| && KernelOnly(recs[..i]) && recs[i].kernel
    ensures KernelOnly(recs[..i + 1])
  {
    var longer := recs[..i + 1];
    forall j | 0 <= j < |longer| ensures longer[j].kernel {
      if j < i { assert longer[j] == recs[..i][j]; }
    }
  }

  /** A user record with the sentinel pc after kernel records only is the case the precondition excludes. */
  lemma KernelPrefixThenSentinel<V>(recs: seq<DiffRecord<V>>, i: nat)
    requires i < |recs| && KernelOnly(recs[..i]) && !recs[i].kernel && recs[i].pc == Sentinel
    ensures StartsAtSentinel(recs)
  {
    forall j | 0 <= j < i ensures recs[j].kernel {
      assert recs[j] == recs[..i][j];
    }
  }

  /**
   * One record of the extraction loop: a kernel record is skipped when
   * kernel code is ignored; otherwise a repeated pc replaces the last kept
   * instruction. `done` says the length bound was reached.
   */
  method ExtractRecord<V>(vec: InstVec<V>, r: DiffRecord<V>, lastUserPc: nat, count: int, cfg: DiffConfig)
    returns (pc: nat, newCount: int, done: bool)
    requires cfg.ignoreKernel && !r.kernel && r.pc == lastUserPc ==> vec.items != []
    modifies vec
    ensures ExtractStep(ExtractState(old(vec.items), lastUserPc, count, false), r, cfg) ==
            ExtractState(vec.items, pc, newCount, done)
  {
    if cfg.ignoreKernel && r.kernel {
      return lastUserPc, count, false;
    }
    newCount := count;
    if cfg.ignoreKernel && r.pc == lastUserPc {
      vec.PopBack();
      newCount := newCount - 1;
    }
    vec.PushBack(r.view);
    pc := r.pc;
    newCount := newCount + 1;
    done := cfg.length != 0 && newCount >= cfg.length;
  }

  /** The views of records, in order. */
  function Views<V>(rs: seq<DiffRecord<V>>): seq<V>
    decreases |rs|
  {
    if rs == [] then [] else Views(rs[..|rs| - 1]) + [rs[|rs| - 1].view]
  }

  lemma ViewsLength<V>(rs: seq<DiffRecord<V>>)
    ensures |Views(rs)| == |rs|
  {
  }

  /**
   * A sequence of records with each run of equal consecutive pcs reduced to
   * its last record: the replayed instruction after a page fault replaces
   * the first attempt.
   */
  function Collapse<V>(rs: seq<DiffRecord<V>>): seq<DiffRecord<V>>
    decreases |rs|
  {
    if rs == [] then []
    else
      var c := Collapse(rs[..|rs| - 1]);
      var r := rs[|rs| - 1];
      if c != [] && c[|c| - 1].pc == r.pc then c[..|c| - 1] + [r] else c + [r]
  }

  /** The last collapsed record is the last record, and collapsing never lengthens. */
  lemma {:induction false} CollapseLast<V>(rs: seq<DiffRecord<V>>)
    ensures |Collapse(rs)| <= |rs|
    ensures rs != [] ==> Collapse(rs) != [] && Collapse(rs)[|Collapse(rs)| - 1] == rs[|rs| - 1]
    decreases |rs|
  {
    if rs != [] {
      CollapseLast(rs[..|rs| - 1]);
    }
  }

  /** No two neighbouring collapsed records share a pc. */
  lemma {:induction false} CollapseNoRepeats<V>(rs: seq<DiffRecord<V>>)
    ensures forall i :: 0 <= i < |Collapse(rs)| - 1 ==> Collapse(rs)[i].pc != Collapse(rs)[i + 1].pc
    decreases |rs|
  {
    if rs != [] {
      var init := rs[..|rs| - 1];
      CollapseNoRepeats(init);
      CollapseLast(init);
    }
  }

  /** The user-code records, kept in a left-to-right order suited to the extraction loop. */
  function Users<V>(rs: seq<DiffRecord<V>>): seq<DiffRecord<V>>
    decreases |rs|
  {
    if rs == [] then [] else Users(rs[..|rs| - 1]) + (if rs[|rs| - 1].kernel then [] else [rs[|rs| - 1]])
  }

  /**
   * Without kernel skipping and without a length bound, extraction appends
   * the view of every record, in order, and counts them all.
   */
  lemma {:induction false} ExtractAll<V>(items0: seq<V>, recs: seq<DiffRecord<V>>, cfg: DiffConfig)
    requires !cfg.ignoreKernel && cfg.length == 0
    ensures Extract(ExtractState(items0, Sentinel, 0, false), recs, cfg).items == items0 + Views(recs)
    ensures Extract(ExtractState(items0, Sentinel, 0, false), recs, cfg).count == |recs|
    ensures !Extract(ExtractState(items0, Sentinel, 0, false), recs, cfg).done
    decreases |recs|
  {
    if recs != [] {
      ExtractAll(items0, recs[..|recs| - 1], cfg);
    }
  }

  /**
   * With kernel skipping, extraction appends the views of the user-code
   * records with every run of equal pcs reduced to its last record, and
   * `count` is the number of entries added, for as long as the length bound
   * has not stopped it; without a length bound it never stops.
   */
  lemma {:induction false} ExtractUser<V>(items0: seq<V>, recs: seq<DiffRecord<V>>, cfg: DiffConfig)
    requires cfg.ignoreKernel
    requires !StartsAtSentinel(recs)
    ensures var e := Extract(ExtractState(items0, Sentinel, 0, false), recs, cfg);
            && (cfg.length == 0 ==> !e.done)
            && (!e.done ==>
                  && e.items == items0 + Views(Collapse(Users(recs)))
                  && e.count == |Collapse(Users(recs))|
                  && e.lastUserPc == (if Users(recs) == [] then Sentinel else Users(recs)[|Users(recs)| - 1].pc))
    decreases |recs|
  {
    if recs != [] {
      var init, r := recs[..|recs| - 1], recs[|recs| - 1];
      SentinelPrefix(recs);
      ExtractUser(items0, init, cfg);
      var e := Extract(ExtractState(items0, Sentinel, 0, false), init, cfg);
      if !e.done {
        assert Extract(ExtractState(items0, Sentinel, 0, false), recs, cfg) == ExtractStep(e, r, cfg);
        if r.kernel {
          assert Users(recs) == Users(init);
        } else {
          ExtractUserKeeps(items0, recs, cfg, e);
        }
      }
    }
  }

  /**
   * With kernel skipping and a length bound: when record j-1 is the one that
   * reaches the bound, the vector ends as the collapsed user-code views of
   * the first j records, which number exactly `length`, and the records after
   * them are not read.
   */
  lemma ExtractUserStops<V>(items0: seq<V>, recs: seq<DiffRecord<V>>, cfg: DiffConfig, j: nat)
    requires cfg.ignoreKernel
    requires !StartsAtSentinel(recs)
    requires 0 < j <= |recs|
    requires !Extract(ExtractState(items0, Sentinel, 0, false), recs[..j - 1], cfg).done
    requires Extract(ExtractState(items0, Sentinel, 0, false), recs[..j], cfg).done
    ensures var e := Extract(ExtractState(items0, Sentinel, 0, false), recs, cfg);
            && e == Extract(ExtractState(items0, Sentinel, 0, false), recs[..j], cfg)
            && !recs[j - 1].kernel
            && e.items == items0 + Views(Collapse(Users(recs[..j])))
            && e.count == |Collapse(Users(recs[..j]))| == cfg.length
  {
    var s0 := ExtractState(items0, Sentinel, 0, false);
    var p := recs[..j];
    ExtractPrefixDone(s0, recs, j, cfg);
    SentinelPrefixAt(recs, j);
    SentinelPrefix(p);
    assert p[..j - 1] == recs[..j - 1];
    ExtractUser(items0, p[..j - 1], cfg);
    var e := Extract(s0, p[..j - 1], cfg);
    assert Extract(s0, p, cfg) == ExtractStep(e, p[j - 1], cfg);
    ExtractUser(items0, p, cfg);
    ExtractBounded(items0, p, cfg);
    ExtractUserKeeps(items0, p, cfg, e);
  }

  /** Every prefix of a trace whose first user record is not at the sentinel pc has the same property. */
  lemma {:induction false} SentinelPrefixAt<V>(recs: seq<DiffRecord<V>>, j: nat)
    requires j <= |recs| && !StartsAtSentinel(recs)
    ensures !StartsAtSentinel(recs[..j])
    decreases |recs| - j
  {
    if j == |recs| {
      assert recs[..j] == recs;
    } else {
      SentinelPrefixAt(recs, j + 1);
      SentinelPrefix(recs[..j + 1]);
      assert recs[..j + 1][..j] == recs[..j];
    }
  }

  /** The step of `ExtractUser` for a user-code record at the end of `recs`. */
  lemma ExtractUserKeeps<V>(items0: seq<V>, recs: seq<DiffRecord<V>>, cfg: DiffConfig, e: ExtractState<V>)
    requires cfg.ignoreKernel
    requires recs != [] && !recs[|recs| - 1].kernel
    requires !StartsAtSentinel(recs)
    requires var u := Users(recs[..|recs| - 1]);
             && e.items == items0 + Views(Collapse(u))
             && e.count == |Collapse(u)|
             && e.lastUserPc == (if u == [] then Sentinel else u[|u| - 1].pc)
    ensures var e' := ExtractStep(e, recs[|recs| - 1], cfg);
            && e'.items == items0 + Views(Collapse(Users(recs)))
            && e'.count == |Collapse(Users(recs))|
            && e'.lastUserPc == Users(recs)[|Users(recs)| - 1].pc
            && (e'.done <==> cfg.length != 0 && e'.count >= cfg.length)
  {
    var init, r := recs[..|recs| - 1], recs[|recs| - 1];
    var u := Users(init);
    assert Users(recs) == u + [r];
    if u == [] {
      LoneUserNotSentinel(recs);
    }
    CollapseStep(items0, u, r);
  }

  /** When the last record is the only user-code record, its pc is not the sentinel. */
  lemma LoneUserNotSentinel<V>(recs: seq<DiffRecord<V>>)
    requires recs != [] && !recs[|recs| - 1].kernel && !StartsAtSentinel(recs)
    requires Users(recs[..|recs| - 1]) == []
    ensures recs[|recs| - 1].pc != Sentinel
  {
    var init := recs[..|recs| - 1];
    UsersEmpty(init);
    forall j | 0 <= j < |init| ensures recs[j].kernel {
      assert recs[j] == init[j];
    }
    FirstUserPc(recs);
  }

  /**
   * Keeping one more user record: the record replaces the last entry exactly
   * when its pc equals the last kept pc, as the extraction loop does.
   */
  lemma CollapseStep<V>(items0: seq<V>, u: seq<DiffRecord<V>>, r: DiffRecord<V>)
    requires u == [] ==> r.pc != Sentinel
    ensures var c := Collapse(u);
            var lastPc := if u == [] then Sentinel else u[|u| - 1].pc;
            var items := items0 + Views(c);
            var replace := r.pc == lastPc;
            && (if replace && items != [] then items[..|items| - 1] else items) + [r.view] == items0 + Views(Collapse(u + [r]))
            && (if replace then |c| - 1 else |c|) + 1 == |Collapse(u + [r])|
  {
    var c := Collapse(u);
    CollapseSnoc(u, r);
    CollapseLast(u);
    ViewsLength(c);
    if u != [] && u[|u| - 1].pc == r.pc {
      ViewsDropLast(items0, c);
      ViewsSnoc(c[..|c| - 1], r);
    } else {
      ViewsSnoc(c, r);
    }
  }

  lemma CollapseSnoc<V>(u: seq<DiffRecord<V>>, r: DiffRecord<V>)
    ensures Collapse(u + [r]) ==
            if u != [] && u[|u| - 1].pc == r.pc then Collapse(u)[..|Collapse(u)| - 1] + [r] else Collapse(u) + [r]
  {
    assert (u + [r])[..|u|] == u;
    CollapseLast(u);
  }

  lemma ViewsDropLast<V>(items0: seq<V>, c: seq<DiffRecord<V>>)
    requires c != []
    ensures (items0 + Views(c))[..|items0 + Views(c)| - 1] == items0 + Views(c[..|c| - 1])
  {
    ViewsSnoc(c[..|c| - 1], c[|c| - 1]);
    assert c[..|c| - 1] + [c[|c| - 1]] == c;
  }

  lemma ViewsSnoc<V>(c: seq<DiffRecord<V>>, r: DiffRecord<V>)
    ensures Views(c + [r]) == Views(c) + [r.view]
  {
    assert (c + [r])[..|c|] == c;
  }

  /** A prefix of a trace whose first user record is not at the sentinel pc has the same property. */
  lemma SentinelPrefix<V>(recs: seq<DiffRecord<V>>)
    requires recs != [] && !StartsAtSentinel(recs)
    ensures !StartsAtSentinel(recs[..|recs| - 1])
  {
    var init := recs[..|recs| - 1];
    if StartsAtSentinel(init) {
      var k :| 0 <= k < |init| && !init[k].kernel && init[k].pc == Sentinel &&
               forall j :: 0 <= j < k ==> init[j].kernel;
      assert recs[k] == init[k];
      forall j | 0 <= j < k ensures recs[j].kernel {
        assert recs[j] == init[j];
      }
    }
  }

  /** When every earlier record is kernel code, the last record is the first user record. */
  lemma FirstUserPc<V>(recs: seq<DiffRecord<V>>)
    requires recs != [] && !recs[|recs| - 1].kernel && !StartsAtSentinel(recs)
    requires forall j :: 0 <= j < |recs| - 1 ==> recs[j].kernel
    ensures recs[|recs| - 1].pc != Sentinel
  {
  }

  lemma {:induction false} UsersEmpty<V>(rs: seq<DiffRecord<V>>)
    requires Users(rs) == []
    ensures forall j :: 0 <= j < |rs| ==> rs[j].kernel
    decreases |rs|
  {
    if rs != [] {
      UsersEmpty(rs[..|rs| - 1]);
      assert forall j :: 0 <= j < |rs| - 1 ==> rs[j] == rs[..|rs| - 1][j];
    }
  }

  /**
   * Without kernel skipping, a length bound keeps exactly the views of the
   * first `length` records (all of them when there are fewer).
   */
  lemma {:induction false} ExtractFirst<V>(items0: seq<V>, recs: seq<DiffRecord<V>>, cfg: DiffConfig)
    requires !cfg.ignoreKernel && cfg.length != 0
    ensures var e := Extract(ExtractState(items0, Sentinel, 0, false), recs, cfg);
            var m := Min(cfg.length, |recs|);
            && e.items == items0 + Views(recs[..m])
            && e.count == m
            && (e.done <==> m == cfg.length)
    decreases |recs|
  {
    if recs != [] {
      var init := recs[..|recs| - 1];
      ExtractFirst(items0, init, cfg);
      var m' := Min(cfg.length, |init|);
      if m' == cfg.length {
        assert recs[..m'] == init[..m'];
      } else {
        assert init[..m'] == init;
        assert recs[..|recs|] == recs;
      }
    }
  }

  /** With a length bound, extraction adds at most `length` entries. */
  lemma {:induction false} ExtractBounded<V>(items0: seq<V>, recs: seq<DiffRecord<V>>, cfg: DiffConfig)
    requires cfg.length != 0
    ensures 0 <= Extract(ExtractState(items0, Sentinel, 0, false), recs, cfg).count <= cfg.length
    ensures Extract(ExtractState(items0, Sentinel, 0, false), recs, cfg).done <==>
            Extract(ExtractState(items0, Sentinel, 0, false), recs, cfg).count == cfg.length
    decreases |recs|
  {
    if recs != [] {
      ExtractBounded(items0, recs[..|recs| - 1], cfg);
    }
  }
}
