/**
 * The int-based message-id allocator of the direct frame layer
 * (frame/direct/BitMaskMessageIds.java). Its bit set grows without bound:
 * nextClearBit(0) never answers a negative index, so a reservation is always
 * served at once and is never checked against endId. A release clears one
 * bit and swaps the "bit cleared" notification for a new one after
 * completing the old one.
 */
module DirectMessageIds {
  import opened Wrappers
  import opened BitSets

  /** The bounds of a Java int. */
  const IntMin: int := -0x8000_0000
  const IntMax: int := 0x7FFF_FFFF

  predicate IsInt(x: int) {
    IntMin <= x <= IntMax
  }

  /** Java int arithmetic: the exact result wrapped into [IntMin, IntMax] modulo 2^32. */
  function Wrap(x: int): (r: int)
    ensures IsInt(r) && (x - r) % 0x1_0000_0000 == 0
    ensures IsInt(x) ==> r == x
  {
    (x - IntMin) % 0x1_0000_0000 + IntMin
  }

  class BitMaskMessageIds {
    const startId: int
    const endId: int
    /** Bit i set means id startId + i is handed out. */
    var bits: seq<bool>
    /** Serial number of the pending clearNotify future. */
    var clearNotify: nat
    /** The clearNotify futures completed so far, in completion order. */
    var completedNotifies: seq<nat>

    /** The ids currently handed out. */
    ghost function Outstanding(): set<int>
      reads this
    {
      Members(startId, bits)
    }

    constructor Init(startId: int, endId: int)
      ensures this.startId == startId && this.endId == endId
      ensures bits == [] && clearNotify == 0 && completedNotifies == []
    {
      this.startId := startId;
      this.endId := endId;
      bits := [];
      clearNotify := 0;
      completedNotifies := [];
    }

    /**
     * new BitMaskMessageIds(startId, endId): the BitSet size endId - startId + 1,
     * computed in int arithmetic, must not be negative
     * (NegativeArraySizeException); None where it throws.
     */
    static method Create(startId: int, endId: int) returns (r: Option<BitMaskMessageIds>)
      requires IsInt(startId) && IsInt(endId)
      ensures r.None? <==> Wrap(endId - startId + 1) < 0
      ensures r.Some? ==> fresh(r.value) && r.value.startId == startId && r.value.endId == endId
      ensures r.Some? ==> r.value.bits == [] && r.value.clearNotify == 0 && r.value.completedNotifies == []
    {
      if Wrap(endId - startId + 1) < 0 {
        return None;
      }
      var ids := new BitMaskMessageIds.Init(startId, endId);
      r := Some(ids);
    }

    /** reserveId: sets the lowest clear bit n and completes at once with startId + n. */
    method ReserveId() returns (id: int)
      modifies this
      ensures id == startId + LowestClear(old(bits)) && bits == SetBit(old(bits), id - startId)
      ensures id !in old(Outstanding()) && Outstanding() == old(Outstanding()) + {id}
      ensures forall j :: startId <= j < id ==> j in old(Outstanding())
      ensures clearNotify == old(clearNotify) && completedNotifies == old(completedNotifies)
    {
      // nextClearBit(0) is never negative, so the deferred branch of the source is never taken
      var next := LowestClear(bits);
      bits := SetBit(bits, next);
      id := next + startId;
      MembersAfterSet(startId, old(bits), next);
    }

    /**
     * releaseId: clears bit id - startId (int arithmetic), then replaces
     * clearNotify by a new future and completes the old one. False where
     * BitSet.clear throws on a negative index. When id - startId overflows,
     * the bit cleared is not the one for id.
     */
    method ReleaseId(id: int) returns (ok: bool)
      requires IsInt(id)
      modifies this
      ensures ok <==> Wrap(id - startId) >= 0
      ensures !ok ==> bits == old(bits) && clearNotify == old(clearNotify) && completedNotifies == old(completedNotifies)
      ensures ok ==> bits == ClearBit(old(bits), Wrap(id - startId))
      ensures ok ==> Outstanding() == old(Outstanding()) - {startId + Wrap(id - startId)}
      ensures ok && IsInt(id - startId) ==> Outstanding() == old(Outstanding()) - {id}
      ensures ok ==> clearNotify == old(clearNotify) + 1 && completedNotifies == old(completedNotifies) + [old(clearNotify)]
    {
      var offset := Wrap(id - startId);
      if offset < 0 {
        return false;
      }
      bits := ClearBit(bits, offset);
      MembersAfterClear(startId, old(bits), offset);
      var oldClearNotify := clearNotify;
      clearNotify := clearNotify + 1;
      completedNotifies := completedNotifies + [oldClearNotify];
      ok := true;
    }
  }

  /**
   * From a fresh allocator on [10, 19]: reservations answer 10, 11, ... in
   * order, and the eleventh answers 20, past endId.
   */
  method FreshRangeScenario() returns (ids: seq<int>)
    ensures ids == seq(11, i => 10 + i)
    ensures ids[10] > 19
  {
    var created := BitMaskMessageIds.Create(10, 19);
    var allocator := created.value;
    ids := [];
    var i := 0;
    while i < 11
      invariant 0 <= i <= 11
      invariant allocator.startId == 10 && allocator.endId == 19
      invariant allocator.bits == Prefix(i, i)
      invariant ids == seq(i, j => 10 + j)
    {
      LowestClearOfPrefix(i, i);
      var id := allocator.ReserveId();
      SetPastFull(i);
      ids := ids + [id];
      i := i + 1;
    }
  }

  /** Releasing 10 and reserving again answers 10. */
  method ReleaseScenario() returns (id: int)
    ensures id == 10
  {
    var created := BitMaskMessageIds.Create(10, 19);
    var allocator := created.value;
    var first := allocator.ReserveId();
    var ok := allocator.ReleaseId(10);
    assert !IsSet(allocator.bits, 0);
    id := allocator.ReserveId();
  }

  /**
   * Java int overflow: an allocator on [-2, Integer.MAX_VALUE] cannot be
   * made, and with startId 10, releasing Integer.MIN_VALUE clears bit
   * 2147483638, past the bits in use, so id 10 stays handed out.
   */
  method OverflowScenario() returns (created: bool, released: bool, stillHeld: bool)
    ensures !created && released && stillHeld
  {
    var wide := BitMaskMessageIds.Create(-2, IntMax);
    created := wide.Some?;
    var made := BitMaskMessageIds.Create(10, 19);
    var allocator := made.value;
    var id := allocator.ReserveId();
    assert Wrap(IntMin - 10) == 2147483638;
    released := allocator.ReleaseId(IntMin);
    stillHeld := IsSet(allocator.bits, 0);
  }
}
