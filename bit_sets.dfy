/**
 * java.util.BitSet as the allocators use it: a sequence of bits where every
 * index past the end reads as clear. Only the three operations the source
 * calls are modelled: nextClearBit(0), set(i) and clear(i).
 */
module BitSets {

  /** Bit i is set; bits past the end are clear. */
  predicate IsSet(bits: seq<bool>, i: nat) {
    i < |bits| && bits[i]
  }

  /** nextClearBit(0): the lowest clear index, |bits| when every held bit is set. */
  function LowestClear(bits: seq<bool>): (r: nat)
    ensures r <= |bits|
    ensures forall i :: 0 <= i < r ==> bits[i]
    ensures !IsSet(bits, r)
  {
    if bits == [] || !bits[0] then 0 else 1 + LowestClear(bits[1..])
  }

  /** set(i): bit i becomes set, growing the bit set when i is past its end. */
  function SetBit(bits: seq<bool>, i: nat): (r: seq<bool>)
    ensures |r| == if i < |bits| then |bits| else i + 1
    ensures forall j: nat :: IsSet(r, j) <==> IsSet(bits, j) || j == i
  {
    if i < |bits| then bits[i := true] else bits + seq(i - |bits|, _ => false) + [true]
  }

  /** clear(i): bit i becomes clear; past the end nothing changes. */
  function ClearBit(bits: seq<bool>, i: nat): (r: seq<bool>)
    ensures |r| == |bits|
    ensures forall j: nat :: IsSet(r, j) <==> IsSet(bits, j) && j != i
  {
    if i < |bits| then bits[i := false] else bits
  }

  /** The first n bits set and nothing else: what n reservations leave behind. */
  function Prefix(n: nat, size: nat): (r: seq<bool>)
    requires n <= size
    ensures |r| == size && forall j: nat :: IsSet(r, j) <==> j < n
  {
    seq(size, j => j < n)
  }

  /** With the first n bits set and the next one clear, the lowest clear index is n. */
  lemma LowestClearOfPrefix(n: nat, size: nat)
    requires n <= size
    ensures LowestClear(Prefix(n, size)) == n
  {
    var bits := Prefix(n, size);
    assert !IsSet(bits, n);
  }

  /** Setting the lowest clear bit of a prefix extends the prefix by one. */
  lemma SetLowestOfPrefix(n: nat, size: nat)
    requires n < size
    ensures SetBit(Prefix(n, size), n) == Prefix(n + 1, size)
  {
    var a, b := SetBit(Prefix(n, size), n), Prefix(n + 1, size);
    assert |a| == |b|;
    forall j | 0 <= j < |a| ensures a[j] == b[j] {
      assert IsSet(a, j) == IsSet(b, j);
    }
  }

  /** Setting the bit just past a full bit set grows it by one set bit. */
  lemma SetPastFull(n: nat)
    ensures SetBit(Prefix(n, n), n) == Prefix(n + 1, n + 1)
  {
    var a, b := SetBit(Prefix(n, n), n), Prefix(n + 1, n + 1);
    assert |a| == |b|;
    forall j | 0 <= j < |a| ensures a[j] == b[j] {
      assert IsSet(a, j) == IsSet(b, j);
    }
  }

  /** The numbers start + i for every set bit i: the ids a mask starting at start stands for. */
  function Members(start: int, bits: seq<bool>): (r: set<int>)
    ensures forall x :: x in r <==> start <= x && IsSet(bits, x - start)
  {
    var r := set i | 0 <= i < |bits| && bits[i] :: start + i;
    forall x | start <= x && IsSet(bits, x - start) ensures x in r {
      var i := x - start;
      assert bits[i] && x == start + i;
    }
    r
  }

  /** Setting bit k adds start + k to the members. */
  lemma MembersAfterSet(start: int, bits: seq<bool>, k: nat)
    ensures Members(start, SetBit(bits, k)) == Members(start, bits) + {start + k}
  {
  }

  /** Clearing bit k removes start + k from the members. */
  lemma MembersAfterClear(start: int, bits: seq<bool>, k: nat)
    ensures Members(start, ClearBit(bits, k)) == Members(start, bits) - {start + k}
  {
  }
}
