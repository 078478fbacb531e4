/** The fixed-width integers of the C++ source (`int`, `unsigned`, `uint8_t`) and
    the conversions C++ performs when an arithmetic result is stored into one of them. */
module MachineInts {

  const TWO_31: int := 0x8000_0000
  const TWO_32: int := 0x1_0000_0000
  const UINT32_MAX: int := 0xFFFF_FFFF

  type int32 = x: int | -0x8000_0000 <= x < 0x8000_0000
  type uint32 = x: int | 0 <= x < 0x1_0000_0000
  type uint8 = x: int | 0 <= x < 0x100

  function Min(a: int, b: int): int { if a <= b then a else b }
  function Max(a: int, b: int): int { if a >= b then a else b }

  /** The value an `unsigned` holds once `x` is stored into it: `x` reduced modulo 2^32. */
  function ToUint32(x: int): (r: uint32)
    ensures 0 <= x < TWO_32 ==> r == x
    ensures x < 0 && -TWO_32 <= x ==> r == x + TWO_32
  {
    x % TWO_32
  }

  /** The value an `int` holds once the 32-bit pattern of `x` is stored into it (two's complement). */
  function ToInt32(x: int): (r: int32)
    ensures -TWO_31 <= x < TWO_31 ==> r == x
    ensures TWO_31 <= x < TWO_32 ==> r == x - TWO_32
    ensures ToUint32(r) == ToUint32(x)
  {
    var m := x % TWO_32;
    if m < TWO_31 then m else m - TWO_32
  }

  /** The value a `uint8_t` holds once `x` is stored into it: `x` reduced modulo 2^8. */
  function ToUint8(x: int): (r: uint8)
    ensures 0 <= x < 0x100 ==> r == x
    ensures x < 0 && -0x100 <= x ==> r == x + 0x100
  {
    x % 0x100
  }

  /** Adding a multiple of 2^32 does not change the stored bit pattern. */
  lemma {:induction false} ShiftInvariant(x: int, k: int)
    ensures ToUint32(x + k * TWO_32) == ToUint32(x)
    ensures ToInt32(x + k * TWO_32) == ToInt32(x)
  {
    var q := x / TWO_32;
    assert x == q * TWO_32 + x % TWO_32;
    assert x + k * TWO_32 == (q + k) * TWO_32 + x % TWO_32;
  }

  /** Unsigned arithmetic is arithmetic modulo 2^32: reducing an operand first does not change the
      stored sum, and reading that sum back through an `int` gives the same signed value. */
  lemma {:induction false} ReduceOperand(x: int, y: int)
    ensures ToUint32(ToUint32(x) + y) == ToUint32(x + y)
    ensures ToInt32(ToUint32(x) + y) == ToInt32(x + y)
    ensures ToUint32(ToInt32(x) + y) == ToUint32(x + y)
    ensures ToInt32(ToInt32(x) + y) == ToInt32(x + y)
  {
    var q := x / TWO_32;
    assert x == q * TWO_32 + ToUint32(x);
    ShiftInvariant(ToUint32(x) + y, q);
    assert ToUint32(x) + y + q * TWO_32 == x + y;
    var s := if ToUint32(x) < TWO_31 then 0 else -1;
    assert ToInt32(x) == ToUint32(x) + s * TWO_32;
    ShiftInvariant(ToUint32(x) + y, s);
  }
}
