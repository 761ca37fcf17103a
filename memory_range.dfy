/** AmMemoryRange and AmMemoryRangeCompare: the key of the tracker's ordered map. */
module MemoryRange {
  import opened AmTypes

  /** The inclusive byte range [basePointer, endPointer]. The end may lie below the base
      (a zero-size range), hence `int`. */
  datatype AmMemoryRange = AmMemoryRange(basePointer: Address, endPointer: int)

  /** AmMemoryRange(base, size): the end pointer is the last byte, base + size - 1. */
  function MakeRange(basePointer: Address, sizeBytes: nat): AmMemoryRange
  {
    AmMemoryRange(basePointer, basePointer + sizeBytes - 1)
  }

  /** The one-byte probe that find and remove build around a pointer. */
  function Probe(p: Address): AmMemoryRange
  {
    MakeRange(p, 1)
  }

  /** AmMemoryRangeCompare: lhs orders before rhs when lhs ends below the base of rhs. */
  predicate Less(lhs: AmMemoryRange, rhs: AmMemoryRange)
  {
    lhs.endPointer < rhs.basePointer
  }

  /** Neither range orders before the other, so the ordered map treats them as one key. */
  predicate SameKey(a: AmMemoryRange, b: AmMemoryRange)
  {
    !Less(a, b) && !Less(b, a)
  }

  predicate Contains(r: AmMemoryRange, p: Address)
  {
    r.basePointer <= p <= r.endPointer
  }

  predicate NonEmpty(r: AmMemoryRange)
  {
    r.basePointer <= r.endPointer
  }

  /** A range built from a base and a size holds exactly the addresses base .. base+size-1:
      the byte at base+size is outside it. */
  lemma MakeRangeContains(basePointer: Address, sizeBytes: nat, p: Address)
    ensures Contains(MakeRange(basePointer, sizeBytes), p) <==> basePointer <= p < basePointer + sizeBytes
    ensures !Contains(MakeRange(basePointer, sizeBytes), basePointer + sizeBytes)
  {
  }

  /** The probe around p is the same key as r exactly when r contains p: this is why find and
      remove match any interior address, not only the base. */
  lemma ProbeMatchesContainment(r: AmMemoryRange, p: Address)
    ensures SameKey(Probe(p), r) <==> Contains(r, p)
  {
  }

  /** For non-empty ranges, "same key" under the comparator means the ranges share a byte. */
  lemma SameKeyIsOverlap(a: AmMemoryRange, b: AmMemoryRange)
    requires NonEmpty(a) && NonEmpty(b)
    ensures SameKey(a, b) <==> exists p: Address :: Contains(a, p) && Contains(b, p)
  {
    if SameKey(a, b) {
      var p := if a.basePointer <= b.basePointer then b.basePointer else a.basePointer;
      assert Contains(a, p) && Contains(b, p);
    }
  }

  /** On non-empty ranges the comparator is a strict partial order: irreflexive and
      transitive. */
  lemma LessIsStrictOrder(a: AmMemoryRange, b: AmMemoryRange, c: AmMemoryRange)
    requires NonEmpty(a) && NonEmpty(b)
    ensures !Less(a, a)
    ensures Less(a, b) && Less(b, c) ==> Less(a, c)
  {
  }

  /** The comparator is not a strict weak order: "same key" is not transitive, because
      [0, 5] overlaps [4, 10] and [4, 10] overlaps [8, 12], yet [0, 5] orders before [8, 12].
      The map behaves as a map only because the keys it holds never overlap. */
  lemma SameKeyNotTransitive()
    ensures var a := AmMemoryRange(0, 5);
            var b := AmMemoryRange(4, 10);
            var c := AmMemoryRange(8, 12);
            NonEmpty(a) && NonEmpty(b) && NonEmpty(c) &&
            SameKey(a, b) && SameKey(b, c) && Less(a, c)
  {
  }
}
