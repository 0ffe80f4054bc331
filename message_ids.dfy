/**
 * The message-id allocator of the network layer (network/BitMaskMessageIds.java):
 * a bit mask over the inclusive VarInt range [startId, startId + range] that
 * always hands out the lowest free id. A reservation against a full mask
 * blocks in the source until a release; here it answers None and changes
 * nothing, which is the state in which the source's caller waits.
 */
module MessageIds {
  import opened Wrappers
  import opened VarInts
  import opened BitSets

  /**
   * The constructor's range check: endId - startId must exist and fit a Java
   * int, otherwise the constructor throws IllegalArgumentException.
   */
  function BitMaskRange(startId: VarInt, endId: VarInt): (r: Option<nat>)
    ensures r.Some? <==> startId.value <= endId.value && endId.value - startId.value <= IntMaxValue
    ensures r.Some? ==> r.value == endId.value - startId.value
  {
    match endId.Subtract(startId)
    case None => None
    case Some(d) => d.IntValue()
  }

  class BitMaskMessageIds {
    const startId: VarInt
    const range: nat
    /** Bit i set means id startId + i is handed out. */
    const bits: array<bool>

    ghost predicate Valid()
      reads this
    {
      && startId.Valid()
      && range < IntMaxValue
      && startId.value + range <= LongMaxInteger
      && bits.Length == range + 1
    }

    /** The ids currently handed out; always inside [startId, startId + range]. */
    ghost function Outstanding(): (ids: set<nat>)
      requires Valid()
      reads this, bits
      ensures forall id :: id in ids ==> startId.value <= id <= startId.value + range
    {
      Members(startId.value, bits[..])
    }

    constructor Init(startId: VarInt, range: nat)
      requires startId.Valid() && range < IntMaxValue && startId.value + range <= LongMaxInteger
      ensures Valid() && fresh(bits)
      ensures this.startId == startId && this.range == range
      ensures bits[..] == Prefix(0, range + 1)
    {
      this.startId := startId;
      this.range := range;
      this.bits := new bool[range + 1](_ => false);
    }

    /**
     * new BitMaskMessageIds(startId, endId): None where the source throws,
     * that is where the range check fails, and where range + 1 overflows a
     * Java int so that new BitSet(range + 1) is asked for a negative size.
     */
    static method Create(startId: VarInt, endId: VarInt) returns (r: Option<BitMaskMessageIds>)
      requires startId.Valid() && endId.Valid()
      ensures r.None? <==> BitMaskRange(startId, endId).None? || BitMaskRange(startId, endId).value == IntMaxValue
      ensures r.Some? ==> fresh(r.value) && fresh(r.value.bits) && r.value.Valid()
      ensures r.Some? ==> r.value.startId == startId && r.value.range == endId.value - startId.value
      ensures r.Some? ==> r.value.bits[..] == Prefix(0, r.value.range + 1) && r.value.Outstanding() == {}
    {
      var range := BitMaskRange(startId, endId);
      if range.None? || range.value == IntMaxValue {
        return None;
      }
      var ids := new BitMaskMessageIds.Init(startId, range.value);
      r := Some(ids);
    }

    /**
     * reserveId: takes the lowest clear bit k <= range, sets it and answers
     * startId + k. None when every bit is set (the source blocks).
     */
    method ReserveId() returns (id: Option<VarInt>)
      requires Valid()
      modifies bits
      ensures id.None? <==> LowestClear(old(bits[..])) > range
      ensures id.None? ==> bits[..] == old(bits[..])
      ensures id.None? ==> forall j :: startId.value <= j <= startId.value + range ==> j in Outstanding()
      ensures id.Some? ==> var k := LowestClear(old(bits[..]));
        id.value == CreateLong(startId.value + k) && bits[..] == SetBit(old(bits[..]), k)
      ensures id.Some? ==> id.value.value !in old(Outstanding())
      ensures id.Some? ==> Outstanding() == old(Outstanding()) + {id.value.value}
      ensures id.Some? ==> forall j :: startId.value <= j < id.value.value ==> j in old(Outstanding())
    {
      var k := LowestClear(bits[..]);
      if k <= range {
        bits[k] := true;
        var sum := startId.Add(CreateLong(k));
        id := Some(sum.value);
        assert bits[..] == old(bits[..])[k := true];
        MembersAfterSet(startId.value, old(bits[..]), k);
      } else {
        id := None;
        forall j | startId.value <= j <= startId.value + range ensures j in Outstanding() {
          assert bits[j - startId.value];
        }
      }
    }

    /**
     * releaseId: clears bit id - startId and wakes waiters. False where the
     * source throws: id below startId, or id - startId beyond a Java int.
     */
    method ReleaseId(id: VarInt) returns (ok: bool)
      requires Valid()
      modifies bits
      ensures ok <==> startId.value <= id.value && id.value - startId.value <= IntMaxValue
      ensures !ok ==> bits[..] == old(bits[..])
      ensures ok ==> bits[..] == ClearBit(old(bits[..]), id.value - startId.value)
      ensures ok ==> Outstanding() == old(Outstanding()) - {id.value}
    {
      var offset := id.Subtract(startId);
      if offset.None? {
        return false;
      }
      var k := offset.value.IntValue();
      if k.None? {
        return false;
      }
      if k.value < bits.Length {
        bits[k.value] := false;
        assert bits[..] == old(bits[..])[k.value := false];
      }
      MembersAfterClear(startId.value, old(bits[..]), k.value);
      ok := true;
    }
  }

  /**
   * From a fresh allocator on [10, 19]: ten reservations answer 10, 11, ..., 19
   * in order, and an eleventh finds the mask full.
   */
  method FreshRangeScenario() returns (ids: seq<nat>, eleventhWaits: bool)
    ensures ids == seq(10, i => 10 + i)
    ensures eleventhWaits
  {
    var created := BitMaskMessageIds.Create(CreateLong(10), CreateLong(19));
    var allocator := created.value;
    ids := [];
    var i := 0;
    while i < 10
      invariant 0 <= i <= 10
      invariant allocator.Valid() && allocator.startId.value == 10 && allocator.range == 9
      invariant allocator.bits[..] == Prefix(i, 10)
      invariant ids == seq(i, j => 10 + j)
    {
      LowestClearOfPrefix(i, 10);
      var id := allocator.ReserveId();
      SetLowestOfPrefix(i, 10);
      ids := ids + [id.value.value];
      i := i + 1;
    }
    LowestClearOfPrefix(10, 10);
    var last := allocator.ReserveId();
    eleventhWaits := last.None?;
  }

  /** Lowest-free policy: with 10, 11 and 12 held, releasing 10 makes 10 the next id. */
  method ReleaseLowestScenario() returns (id: nat)
    ensures id == 10
  {
    var created := BitMaskMessageIds.Create(CreateLong(10), CreateLong(19));
    var allocator := created.value;
    LowestClearOfPrefix(0, 10);
    var a := allocator.ReserveId();
    SetLowestOfPrefix(0, 10);
    LowestClearOfPrefix(1, 10);
    var b := allocator.ReserveId();
    SetLowestOfPrefix(1, 10);
    LowestClearOfPrefix(2, 10);
    var c := allocator.ReserveId();
    var ok := allocator.ReleaseId(CreateLong(10));
    assert !allocator.bits[0];
    var again := allocator.ReserveId();
    id := again.value.value;
  }

  /** [0, Integer.MAX_VALUE] passes the range check, but its bit set cannot be allocated. */
  method WidestRangeScenario() returns (created: bool)
    ensures !created
  {
    LongMaxValue();
    var r := BitMaskMessageIds.Create(Zero, CreateLong(IntMaxValue));
    created := r.Some?;
  }
}
