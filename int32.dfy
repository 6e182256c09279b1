/**
  The 32-bit signed integer of .NET (System.Int32) as far as the pair types use it:
  the value range, its two's-complement representation, the `^` operator of C# on
  two `int` operands, and Int32.GetHashCode, which returns the value itself.
 */
module Int32 {

  const Two31: int := 0x8000_0000
  const Two32: int := 0x1_0000_0000

  /** A C# `int`. */
  newtype int32 = x: int | -0x8000_0000 <= x < 0x8000_0000

  function Pow2(k: nat): (p: nat)
    ensures p >= 1
  {
    if k == 0 then 1 else 2 * Pow2(k - 1)
  }

  lemma {:induction false} Pow2Add(a: nat, b: nat)
    ensures Pow2(a + b) == Pow2(a) * Pow2(b)
    decreases a
  {
    if a > 0 {
      Pow2Add(a - 1, b);
    }
  }

  /** 32 bits hold exactly the values below 2^32. */
  lemma Pow2Of32()
    ensures Pow2(32) == Two32
  {
    assert Pow2(2) == 4;
    Pow2Add(2, 2);
    Pow2Add(4, 4);
    Pow2Add(8, 8);
    Pow2Add(16, 16);
  }

  /** The unsigned reading of the 32-bit two's-complement representation of x. */
  function Unsigned(x: int32): (u: nat)
    ensures u < Two32
    ensures x >= 0 ==> u == x as int
    ensures x < 0 ==> u == x as int + Two32
  {
    x as int % Two32
  }

  /** The `int` whose representation, read unsigned, is u. */
  function Signed(u: nat): (x: int32)
    requires u < Two32
    ensures u < Two31 ==> x as int == u
    ensures u >= Two31 ==> x as int == u - Two32
  {
    if u < Two31 then u as int32 else (u - Two32) as int32
  }

  /** Reading a representation back gives the value it represents. */
  lemma SignedUnsigned(x: int32)
    ensures Signed(Unsigned(x)) == x
  {
  }

  /**
    Bitwise exclusive or of the lowest `width` bits of a and b, bit 0 first:
    bit i of the result is set exactly when bits i of a and b differ.
   */
  function XorBits(a: nat, b: nat, width: nat): (r: nat)
    ensures r < Pow2(width)
    decreases width
  {
    if width == 0 then 0
    else (if a % 2 == b % 2 then 0 else 1) + 2 * XorBits(a / 2, b / 2, width - 1)
  }

  lemma {:induction false} XorBitsCommutes(a: nat, b: nat, width: nat)
    ensures XorBits(a, b, width) == XorBits(b, a, width)
    decreases width
  {
    if width > 0 {
      XorBitsCommutes(a / 2, b / 2, width - 1);
    }
  }

  lemma {:induction false} XorBitsSelf(a: nat, width: nat)
    ensures XorBits(a, a, width) == 0
    decreases width
  {
    if width > 0 {
      XorBitsSelf(a / 2, width - 1);
    }
  }

  lemma {:induction false} XorBitsZeroIff(a: nat, b: nat, width: nat)
    requires a < Pow2(width) && b < Pow2(width)
    ensures XorBits(a, b, width) == 0 <==> a == b
    decreases width
  {
    if width > 0 {
      XorBitsZeroIff(a / 2, b / 2, width - 1);
    }
  }

  lemma {:induction false} XorBitsCancel(a: nat, b: nat, width: nat)
    requires a < Pow2(width)
    ensures XorBits(XorBits(a, b, width), b, width) == a
    decreases width
  {
    if width > 0 {
      XorBitsCancel(a / 2, b / 2, width - 1);
    }
  }

  lemma {:induction false} XorBitsZero(a: nat, width: nat)
    requires a < Pow2(width)
    ensures XorBits(a, 0, width) == a
    decreases width
  {
    if width > 0 {
      XorBitsZero(a / 2, width - 1);
    }
  }

  /** The highest of the `width` bits of the result is set exactly when those of a and b differ. */
  lemma {:induction false} XorBitsTopBit(a: nat, b: nat, width: nat)
    requires width >= 1 && a < Pow2(width) && b < Pow2(width)
    ensures XorBits(a, b, width) >= Pow2(width - 1) <==> (a >= Pow2(width - 1)) != (b >= Pow2(width - 1))
    decreases width
  {
    if width > 1 {
      XorBitsTopBit(a / 2, b / 2, width - 1);
    }
  }

  /** C#'s `a ^ b` on two `int` operands: exclusive or of their representations. */
  function Xor(a: int32, b: int32): (r: int32)
    ensures Unsigned(r) == XorBits(Unsigned(a), Unsigned(b), 32)
  {
    Pow2Of32();
    var u := XorBits(Unsigned(a), Unsigned(b), 32);
    assert Unsigned(Signed(u)) == u;
    Signed(u)
  }

  /** Int32.GetHashCode: an `int` is its own hash code. */
  function GetHashCode(x: int32): (h: int32)
    ensures h == x
  {
    x
  }

  lemma XorCommutes(a: int32, b: int32)
    ensures Xor(a, b) == Xor(b, a)
  {
    XorBitsCommutes(Unsigned(a), Unsigned(b), 32);
  }

  lemma XorSelf(a: int32)
    ensures Xor(a, a) == 0
  {
    XorBitsSelf(Unsigned(a), 32);
  }

  lemma XorZeroIff(a: int32, b: int32)
    ensures Xor(a, b) == 0 <==> a == b
  {
    Pow2Of32();
    XorBitsZeroIff(Unsigned(a), Unsigned(b), 32);
  }

  lemma XorCancel(a: int32, b: int32)
    ensures Xor(Xor(a, b), b) == a
  {
    Pow2Of32();
    XorBitsCancel(Unsigned(a), Unsigned(b), 32);
  }

  lemma XorZero(a: int32)
    ensures Xor(a, 0) == a
  {
    Pow2Of32();
    XorBitsZero(Unsigned(a), 32);
  }

  /** The sign bit of `a ^ b` is set exactly when a and b have different signs. */
  lemma XorSign(a: int32, b: int32)
    ensures Xor(a, b) < 0 <==> (a < 0) != (b < 0)
  {
    Pow2Of32();
    assert Pow2(31) == Two31;
    XorBitsTopBit(Unsigned(a), Unsigned(b), 32);
  }
}
