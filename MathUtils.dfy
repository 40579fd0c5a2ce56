/** MathUtils.isPowerOfTwo of backend/src/ts/utils/MathUtils.ts. The other
    helpers of that class work on floating point and are not part of this model. */
module MathUtils {
  import opened Int32

  /** isPowerOfTwo: value & (value - 1) is zero and value itself is not. */
  function IsPowerOfTwo(value: int): bool
  {
    BitAnd(value, value - 1) == 0 && value != 0
  }

  /** For a nonzero 32-bit integer, the pattern of value - 1 is the pattern of value minus one. */
  lemma PredecessorPattern(value: int)
    requires IsInt32(value) && value != 0
    ensures Bits32(value) > 0 && Bits32(value - 1) == Bits32(value) - 1
  {
    if value > 0 {
      DivModUnique(value, TwoTo32, 0, value);
      DivModUnique(value - 1, TwoTo32, 0, value - 1);
    } else {
      DivModUnique(value, TwoTo32, -1, value + TwoTo32);
      DivModUnique(value - 1, TwoTo32, -1, value - 1 + TwoTo32);
    }
  }

  /** A pattern below 2^32 converts to the integer zero exactly when it is zero. */
  lemma ZeroPattern(a: nat)
    requires a < TwoTo32
    ensures ToInt32(a) == 0 <==> a == 0
  {
    DivModUnique(a, TwoTo32, 0, a);
  }

  /** For a nonzero 32-bit integer, value & (value - 1) is zero exactly when
      one bit of its pattern is set. */
  lemma NonzeroOneBitSet(value: int)
    requires IsInt32(value) && value != 0
    ensures BitAnd(value, value - 1) == 0 <==> exists k :: 0 <= k < 32 && Bits32(value) == Pow2(k)
  {
    var x := Bits32(value);
    PredecessorPattern(value);
    BitAndOfPatterns(value, value - 1, x, x - 1);
    var a := AndBits(x, x - 1, 32);
    AndBitsBound(x, x - 1, 32);
    Pow2Values();
    ZeroPattern(a);
    AndPredecessor(x, 32);
  }

  /** For a 32-bit integer, isPowerOfTwo holds exactly when one bit of its
      two's complement pattern is set; in particular it is false for 0. */
  lemma OneBitSet(value: int)
    requires IsInt32(value)
    ensures IsPowerOfTwo(value) <==> exists k :: 0 <= k < 32 && Bits32(value) == Pow2(k)
  {
    if value == 0 {
      assert Bits32(value) == 0;
    } else {
      NonzeroOneBitSet(value);
    }
  }

  /** For 1 <= value < 2^31, isPowerOfTwo holds exactly for 2^0 .. 2^30. */
  lemma PositivePowers(value: int)
    requires 1 <= value < TwoTo31
    ensures IsPowerOfTwo(value) <==> exists k :: 0 <= k <= 30 && value == Pow2(k)
  {
    OneBitSet(value);
    Pow2Values();
    DivModUnique(value, TwoTo32, 0, value);
  }

  /** A negative 32-bit integer is a "power of two" only when it is -2^31,
      whose one set bit is the sign bit. */
  lemma NegativeInputs(value: int)
    requires -TwoTo31 <= value < 0
    ensures IsPowerOfTwo(value) <==> value == -TwoTo31
  {
    OneBitSet(value);
    Pow2Values();
    DivModUnique(value, TwoTo32, -1, value + TwoTo32);
    if IsPowerOfTwo(value) {
      var k :| 0 <= k < 32 && Bits32(value) == Pow2(k);
      if k < 31 {
        Pow2Monotone(k, 31);
      }
    } else {
      assert Bits32(value) != Pow2(31);
    }
  }
}
