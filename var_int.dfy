/**
 * The bounded wire id type (data/VariableLengthInteger.java): an immutable
 * non-negative integer with an upper bound of 2^57 - 1, whose step and
 * arithmetic operations answer "no result" instead of leaving [0, bound].
 */
module VarInts {
  import opened Wrappers

  /** 2 to the power n. */
  function Pow2(n: nat): (r: nat)
    ensures r >= 1
  {
    if n == 0 then 1 else 2 * Pow2(n - 1)
  }

  /** The bound carried by every value: 2^(7*7+8) - 1. */
  const LongMaxInteger: nat := Pow2(7 * 7 + 8) - 1

  /** Java's Integer.MAX_VALUE, the largest value intValue() can convert. */
  const IntMaxValue: nat := 0x7FFF_FFFF

  /**
   * A value with the bound it was created with. Every public creation path
   * uses LongMaxInteger as the bound; equality in the Java sense (Equals)
   * looks at `value` only.
   */
  datatype VarInt = VarInt(maxValue: nat, value: nat) {

    /** Created through CreateLong / CreateBigInteger with an in-range value. */
    predicate Valid() {
      maxValue == LongMaxInteger && value <= maxValue
    }

    /** value + 1, or no result when the value is already at its bound. */
    function Increase(): (r: Option<VarInt>)
      ensures r.None? <==> value == maxValue
      ensures r.Some? ==> r.value.value == value + 1 && r.value.maxValue == maxValue
      ensures Valid() && r.Some? ==> r.value.Valid()
    {
      if value == maxValue then None else Some(VarInt(maxValue, value + 1))
    }

    /** value - 1, or no result at zero. */
    function Decrease(): (r: Option<VarInt>)
      ensures r.None? <==> value == 0
      ensures r.Some? ==> r.value.value + 1 == value && r.value.maxValue == maxValue
      ensures Valid() && r.Some? ==> r.value.Valid()
    {
      if value == 0 then None else Some(VarInt(maxValue, value - 1))
    }

    /** The difference, or no result when it would be negative. */
    function Subtract(that: VarInt): (r: Option<VarInt>)
      ensures r.None? <==> value < that.value
      ensures r.Some? ==> r.value.value + that.value == value && r.value.maxValue == maxValue
      ensures Valid() && r.Some? ==> r.value.Valid()
    {
      if value < that.value then None else Some(VarInt(maxValue, value - that.value))
    }

    /** The sum, or no result when it would pass the bound. */
    function Add(that: VarInt): (r: Option<VarInt>)
      ensures r.None? <==> value + that.value > maxValue
      ensures r.Some? ==> r.value.value == value + that.value && r.value.maxValue == maxValue
      ensures Valid() && r.Some? ==> r.value.Valid()
    {
      if value + that.value > maxValue then None else Some(VarInt(maxValue, value + that.value))
    }

    /** The value as a Java int, or no result above Integer.MAX_VALUE. */
    function IntValue(): (r: Option<nat>)
      ensures r.None? <==> value > IntMaxValue
      ensures r.Some? ==> r.value == value
    {
      if value <= IntMaxValue then Some(value) else None
    }

    /** Java equals: two values are equal when their values are, whatever their bounds. */
    predicate Equals(that: VarInt) {
      value == that.value
    }
  }

  /** createLong: no range check in the source, so the range is the caller's duty. */
  function CreateLong(value: int): (r: VarInt)
    requires 0 <= value <= LongMaxInteger
    ensures r.Valid() && r.value == value
  {
    VarInt(LongMaxInteger, value)
  }

  /** createBigInteger: as CreateLong, for values beyond a Java long. */
  function CreateBigInteger(value: int): (r: VarInt)
    requires 0 <= value <= LongMaxInteger
    ensures r.Valid() && r.value == value
  {
    VarInt(LongMaxInteger, value)
  }

  const Zero: VarInt := CreateLong(0)

  const LongMax: VarInt := CreateBigInteger(LongMaxInteger)

  /** Powers of two multiply by adding exponents. */
  lemma {:induction false} Pow2Add(a: nat, b: nat)
    ensures Pow2(a + b) == Pow2(a) * Pow2(b)
  {
    if a > 0 {
      Pow2Add(a - 1, b);
    }
  }

  /** The bound is exactly 2^57 - 1. */
  lemma LongMaxValue()
    ensures LongMaxInteger == 144_115_188_075_855_871
  {
    assert Pow2(8) == 256;
    Pow2Add(8, 8);
    assert Pow2(16) == 65_536;
    Pow2Add(16, 16);
    assert Pow2(32) == 4_294_967_296;
    Pow2Add(32, 16);
    assert Pow2(48) == 281_474_976_710_656;
    Pow2Add(48, 8);
    assert Pow2(56) == 72_057_594_037_927_936;
    Pow2Add(56, 1);
    assert Pow2(57) == 144_115_188_075_855_872;
  }

  /** LONG_MAX carries the bound and cannot be increased; ZERO cannot be decreased. */
  lemma Extremes()
    ensures LongMax.value == LongMaxInteger && LongMax.Increase().None?
    ensures Zero.value == 0 && Zero.Decrease().None?
  {
  }

  /** Stepping up then down gives the value back, below the bound. */
  lemma IncreaseThenDecrease(v: VarInt)
    requires v.value < v.maxValue
    ensures v.Increase().Some? && v.Increase().value.Decrease() == Some(v)
  {
  }

  /** Stepping down then up gives the value back, above zero. */
  lemma DecreaseThenIncrease(v: VarInt)
    requires v.Valid() && v.value > 0
    ensures v.Decrease().Some? && v.Decrease().value.Increase() == Some(v)
  {
  }

  /** Subtracting what was added gives the value back. */
  lemma AddThenSubtract(a: VarInt, b: VarInt)
    requires a.Add(b).Some?
    ensures a.Add(b).value.Subtract(b) == Some(a)
  {
  }

  /** Equals is an equivalence that ignores the bound: createLong(0) equals ZERO. */
  lemma EqualsIsValueEquality(a: VarInt, b: VarInt, c: VarInt)
    ensures a.Equals(a)
    ensures a.Equals(b) ==> b.Equals(a)
    ensures a.Equals(b) && b.Equals(c) ==> a.Equals(c)
    ensures a.Equals(VarInt(LongMaxInteger + 1, a.value))
    ensures CreateLong(0).Equals(Zero) && CreateLong(123).Equals(CreateLong(123))
    ensures !CreateLong(123).Equals(CreateLong(124))
  {
  }
}
