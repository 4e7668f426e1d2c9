/**
 * STFAddressRange: a half-open interval [start, end) of 64-bit program
 * counters, with a containment test and an ordering by start address and
 * then by length.
 */
module AddressRanges {

  const U64Limit: int := 0x1_0000_0000_0000_0000

  type u64 = x: int | 0 <= x < U64Limit

  /** The two fields of an STFAddressRange. */
  datatype AddressRange = AddressRange(startPc: u64, endPc: u64)
  {
    /** The invariant the constructor establishes. */
    predicate Valid()
    {
      startPc < endPc
    }
  }

  /** A range that passed the constructor's check. */
  type ValidRange = r: AddressRange | r.Valid() witness AddressRange(0, 1)

  /** The outcome of a construction: the object, or the stf_assert that fired. */
  datatype Construction = Built(range: ValidRange) | AssertFailed(message: string)

  /** The constructor: it refuses an end that is not past the start. */
  function NewRange(startPc: u64, endPc: u64): (c: Construction)
    ensures c.Built? <==> startPc < endPc
    ensures c.Built? ==> c.range.startPc == startPc && c.range.endPc == endPc
  {
    if startPc < endPc then Built(AddressRange(startPc, endPc))
    else AssertFailed("End PC must be larger than start PC")
  }

  /** range(): the number of addresses covered; it is positive and cannot underflow. */
  function Range(a: ValidRange): (n: u64)
    ensures 0 < n
    ensures a.startPc + n == a.endPc
  {
    a.endPc - a.startPc
  }

  predicate Contains(a: ValidRange, pc: u64)
  {
    a.startPc <= pc && pc < a.endPc
  }

  predicate StartsBefore(a: ValidRange, b: ValidRange)
  {
    a.startPc < b.startPc
  }

  predicate StartsAfter(a: ValidRange, b: ValidRange)
  {
    a.startPc > b.startPc
  }

  /** operator<(STFAddressRange) */
  predicate Less(a: ValidRange, b: ValidRange)
  {
    StartsBefore(a, b) || (a.startPc == b.startPc && Range(a) < Range(b))
  }

  /** operator<(uint64_t) */
  predicate LessPc(a: ValidRange, pc: u64)
  {
    a.startPc < pc
  }

  /** operator>(STFAddressRange) */
  predicate Greater(a: ValidRange, b: ValidRange)
  {
    StartsAfter(a, b) || (a.startPc == b.startPc && Range(a) > Range(b))
  }

  /** operator>(uint64_t) */
  predicate GreaterPc(a: ValidRange, pc: u64)
  {
    a.startPc > pc
  }

  /** operator== */
  predicate Equal(a: ValidRange, b: ValidRange)
  {
    a.startPc == b.startPc && a.endPc == b.endPc
  }

  /** operator<= */
  predicate LessEq(a: ValidRange, b: ValidRange)
  {
    Less(a, b) || Equal(a, b)
  }

  /** operator>= */
  predicate GreaterEq(a: ValidRange, b: ValidRange)
  {
    Greater(a, b) || Equal(a, b)
  }

  /** Construction then the accessors give back the two addresses. */
  lemma NewRangeAccessors(startPc: u64, endPc: u64)
    requires startPc < endPc
    ensures NewRange(startPc, endPc).Built?
    ensures Range(NewRange(startPc, endPc).range) == endPc - startPc
  {
  }

  /** contains(pc) holds exactly for the pcs whose offset from the start is below range(). */
  lemma ContainsOffset(a: ValidRange, pc: u64)
    ensures Contains(a, pc) <==> 0 <= pc - a.startPc < Range(a)
  {
  }

  /** The start is inside the range and the end is not. */
  lemma ContainsBounds(a: ValidRange)
    ensures Contains(a, a.startPc)
    ensures !Contains(a, a.endPc)
    ensures Contains(a, a.endPc - 1)
  {
  }

  /** Equality of two ranges is equality of the objects. */
  lemma EqualIsIdentity(a: ValidRange, b: ValidRange)
    ensures Equal(a, b) <==> a == b
  {
  }

  /**
   * The order on ranges is the lexicographic order on (start, end): with the
   * same start, the shorter range is the one that ends first.
   */
  lemma LessIsLexicographic(a: ValidRange, b: ValidRange)
    ensures Less(a, b) <==> a.startPc < b.startPc || (a.startPc == b.startPc && a.endPc < b.endPc)
  {
  }

  lemma LessIrreflexive(a: ValidRange)
    ensures !Less(a, a)
  {
  }

  lemma LessTransitive(a: ValidRange, b: ValidRange, c: ValidRange)
    requires Less(a, b) && Less(b, c)
    ensures Less(a, c)
  {
  }

  /** operator> is operator< with the operands swapped. */
  lemma GreaterIsFlippedLess(a: ValidRange, b: ValidRange)
    ensures Greater(a, b) <==> Less(b, a)
    ensures GreaterEq(a, b) <==> LessEq(b, a)
  {
  }

  /** Exactly one of a < b, a == b and a > b holds. */
  lemma Trichotomy(a: ValidRange, b: ValidRange)
    ensures Less(a, b) || Equal(a, b) || Greater(a, b)
    ensures !(Less(a, b) && Equal(a, b))
    ensures !(Less(a, b) && Greater(a, b))
    ensures !(Equal(a, b) && Greater(a, b))
  {
  }

  /** operator<= is a total order: reflexive, antisymmetric, transitive and total. */
  lemma LessEqTotalOrder(a: ValidRange, b: ValidRange, c: ValidRange)
    ensures LessEq(a, a)
    ensures LessEq(a, b) && LessEq(b, a) ==> a == b
    ensures LessEq(a, b) && LessEq(b, c) ==> LessEq(a, c)
    ensures LessEq(a, b) || LessEq(b, a)
    ensures LessEq(a, b) <==> !Less(b, a)
  {
  }

  /** Against a bare pc only the start address is compared; the end plays no part. */
  lemma PcComparisonsUseStart(a: ValidRange, b: ValidRange, pc: u64)
    requires a.startPc == b.startPc
    ensures LessPc(a, pc) == LessPc(b, pc)
    ensures GreaterPc(a, pc) == GreaterPc(b, pc)
    ensures LessPc(a, b.startPc) == StartsBefore(a, b)
    ensures GreaterPc(a, b.startPc) == StartsAfter(a, b)
  {
  }

  /**
   * Comparing against a pc is not a test of where the pc lies: a range that
   * contains pc is "less than" it unless pc is its start, and no range
   * containing pc is "greater than" it.
   */
  lemma PcComparisonsAndContains(a: ValidRange, pc: u64)
    requires Contains(a, pc)
    ensures LessPc(a, pc) <==> pc != a.startPc
    ensures !GreaterPc(a, pc)
  {
  }

  /** Starting earlier decides the order whatever the lengths. */
  lemma StartDecides(a: ValidRange, b: ValidRange)
    ensures StartsBefore(a, b) ==> Less(a, b) && !Greater(a, b)
    ensures StartsAfter(a, b) ==> Greater(a, b) && !Less(a, b)
  {
  }
}
