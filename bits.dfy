/** The fixed-width unsigned integers of the machine (uint8_t, uint16_t, uint32_t) as bounded
    integers, C's narrowing conversions written out, and the bitwise operators on bytes. */
module Bits {

  /** An 8-bit unsigned value (registers, memory cells, timers). */
  type Byte = b: int | 0 <= b < 0x100

  /** A 16-bit unsigned value (instruction words, the program counter, the index register). */
  type Word = w: int | 0 <= w < 0x1_0000

  /** A 32-bit unsigned value (one framebuffer pixel). */
  type Pixel = p: int | 0 <= p < 0x1_0000_0000

  /** A 4-bit field of an instruction word (a register number or a sprite height). */
  type Nibble = n: int | 0 <= n < 0x10

  /** Conversion of an int to uint8_t: C keeps the low 8 bits. */
  function ToByte(v: int): (r: Byte)
    ensures (v - r) % 0x100 == 0
    ensures 0 <= v < 0x100 ==> r == v
  {
    v % 0x100
  }

  /** Conversion of an int to uint16_t: C keeps the low 16 bits. */
  function ToWord(v: int): (r: Word)
    ensures (v - r) % 0x1_0000 == 0
    ensures 0 <= v < 0x1_0000 ==> r == v
  {
    v % 0x1_0000
  }

  function Pow2(n: nat): (r: nat)
    ensures r >= 1
  {
    if n == 0 then 1 else 2 * Pow2(n - 1)
  }

  /** C's `v >> k` on a non-negative value. */
  function ShiftRight(v: nat, k: nat): (r: nat)
    ensures r <= v
  {
    if k == 0 then v else ShiftRight(v / 2, k - 1)
  }

  /** Shifting right by k is dividing by 2^k. */
  lemma {:induction false} ShiftRightDivides(v: nat, k: nat)
    ensures ShiftRight(v, k) == v / Pow2(k)
  {
    if k > 0 {
      ShiftRightDivides(v / 2, k - 1);
      HalfThenDivide(v, Pow2(k - 1));
    }
  }

  /** Halving and then dividing by m is dividing by 2m. */
  lemma HalfThenDivide(v: nat, m: nat)
    requires m >= 1
    ensures (v / 2) / m == v / (2 * m)
  {
    var q, r := v / (2 * m), v % (2 * m);
    var mq := m * q;
    assert v == (2 * m) * q + r;
    assert (2 * m) * q == 2 * mq;
    DivUnique(v, 2, mq + r / 2, r % 2);
    DivUnique(mq + r / 2, m, q, r / 2);
  }

  /** The quotient is the only q with v = d * q + r and 0 <= r < d. */
  lemma DivUnique(v: int, d: int, q: int, r: int)
    requires d > 0 && 0 <= r < d && v == d * q + r
    ensures v / d == q
  {
    var q', r' := v / d, v % d;
    assert d * q' + r' == d * q + r;
    assert d * (q' - q) == r - r';
    MulBound(d, q' - q);
  }

  /** A multiple of d strictly between -d and d is 0. */
  lemma MulBound(d: int, k: int)
    requires d > 0 && -d < d * k < d
    ensures k == 0
  {
    if k >= 1 {
      assert d * k == d * (k - 1) + d;
      MulNonNegative(d, k - 1);
    } else if k <= -1 {
      assert d * k == d * (k + 1) - d;
      MulNonNegative(d, -(k + 1));
      assert d * -(k + 1) == -(d * (k + 1));
    }
  }

  lemma MulNonNegative(d: int, k: int)
    requires d >= 0 && k >= 0
    ensures d * k >= 0
  {
  }

  /** Bit i of v, bit 0 being the least significant one. */
  predicate Bit(v: nat, i: nat)
  {
    if i == 0 then v % 2 == 1 else Bit(v / 2, i - 1)
  }

  /** The three bitwise operators of the instruction set. */
  datatype Gate = Or | And | Xor

  predicate Apply(g: Gate, p: bool, q: bool)
  {
    match g
    case Or => p || q
    case And => p && q
    case Xor => p != q
  }

  /** The low n bits of `a g b`, computed one bit at a time from the least significant end. */
  function Bitwise(g: Gate, a: nat, b: nat, n: nat): (r: nat)
    ensures r < Pow2(n)
  {
    if n == 0 then 0
    else 2 * Bitwise(g, a / 2, b / 2, n - 1) + (if Apply(g, a % 2 == 1, b % 2 == 1) then 1 else 0)
  }

  /** `a | b`, `a & b` and `a ^ b` on bytes. */
  function ByteOp(g: Gate, a: Byte, b: Byte): (r: Byte)
    ensures forall i :: 0 <= i < 8 ==> (Bit(r, i) <==> Apply(g, Bit(a, i), Bit(b, i)))
  {
    BitwiseBits(g, a, b, 8);
    Bitwise(g, a, b, 8)
  }

  lemma BitwiseBits(g: Gate, a: nat, b: nat, n: nat)
    ensures forall i :: 0 <= i < n ==> Bit(Bitwise(g, a, b, n), i) == Apply(g, Bit(a, i), Bit(b, i))
  {
    forall i | 0 <= i < n
      ensures Bit(Bitwise(g, a, b, n), i) == Apply(g, Bit(a, i), Bit(b, i))
    {
      BitwiseBit(g, a, b, n, i);
    }
  }

  /** Each of the low n bits of the result is the gate applied to the same bit of the operands. */
  lemma {:induction false} BitwiseBit(g: Gate, a: nat, b: nat, n: nat, i: nat)
    requires i < n
    ensures Bit(Bitwise(g, a, b, n), i) == Apply(g, Bit(a, i), Bit(b, i))
  {
    var rest := Bitwise(g, a / 2, b / 2, n - 1);
    var low := if Apply(g, a % 2 == 1, b % 2 == 1) then 1 else 0;
    assert Bitwise(g, a, b, n) == 2 * rest + low;
    Halve(rest, low);
    if i > 0 {
      BitwiseBit(g, a / 2, b / 2, n - 1, i - 1);
    }
  }

  /** No bit at or above position n is set in the result. */
  lemma {:induction false} BitwiseHigh(g: Gate, a: nat, b: nat, n: nat, i: nat)
    requires n <= i
    ensures !Bit(Bitwise(g, a, b, n), i)
  {
    if n == 0 {
      ZeroHasNoBits(i);
    } else {
      var rest := Bitwise(g, a / 2, b / 2, n - 1);
      var low := if Apply(g, a % 2 == 1, b % 2 == 1) then 1 else 0;
      Halve(rest, low);
      BitwiseHigh(g, a / 2, b / 2, n - 1, i - 1);
    }
  }

  lemma Halve(rest: nat, low: nat)
    requires low < 2
    ensures (2 * rest + low) % 2 == low && (2 * rest + low) / 2 == rest
  {
  }

  lemma {:induction false} ZeroHasNoBits(i: nat)
    ensures !Bit(0, i)
  {
    if i > 0 {
      ZeroHasNoBits(i - 1);
    }
  }

  /** Two numbers below 2^n with the same low n bits are equal. */
  lemma {:induction false} SameBitsEqual(a: nat, b: nat, n: nat)
    requires a < Pow2(n) && b < Pow2(n)
    requires forall i :: 0 <= i < n ==> Bit(a, i) == Bit(b, i)
    ensures a == b
  {
    if n > 0 {
      assert Bit(a, 0) == Bit(b, 0);
      forall i | 0 <= i < n - 1
        ensures Bit(a / 2, i) == Bit(b / 2, i)
      {
        assert Bit(a, i + 1) == Bit(b, i + 1);
      }
      SameBitsEqual(a / 2, b / 2, n - 1);
    }
  }

  /** 2^k has bit k and no other. */
  lemma {:induction false} PowerBits(k: nat, i: nat)
    ensures Bit(Pow2(k), i) == (i == k)
  {
    if k == 0 {
      if i > 0 {
        ZeroHasNoBits(i - 1);
      }
    } else if i > 0 {
      assert Pow2(k) / 2 == Pow2(k - 1);
      PowerBits(k - 1, i - 1);
    }
  }

  /** `b & (1 << k)` is non-zero exactly when bit k of b is set. */
  lemma AndPower(b: Byte, k: nat)
    requires k < 8
    ensures (Bitwise(And, b, Pow2(k), 8) != 0) == Bit(b, k)
  {
    var r := Bitwise(And, b, Pow2(k), 8);
    BitwiseBit(And, b, Pow2(k), 8, k);
    PowerBits(k, k);
    if Bit(b, k) {
      ZeroHasNoBits(k);
    } else {
      forall i | 0 <= i < 8
        ensures Bit(r, i) == Bit(0, i)
      {
        BitwiseBit(And, b, Pow2(k), 8, i);
        PowerBits(k, i);
        ZeroHasNoBits(i);
      }
      SameBitsEqual(r, 0, 8);
    }
  }

  /** `a & (1 << k)` is 2^k or 0, as bit k of a is set or not. */
  lemma {:induction false} AndPowerValue(a: nat, k: nat, n: nat)
    requires k < n
    ensures Bitwise(And, a, Pow2(k), n) == if Bit(a, k) then Pow2(k) else 0
  {
    if k == 0 {
      AndZero(a / 2, n - 1);
    } else {
      assert Pow2(k) % 2 == 0 && Pow2(k) / 2 == Pow2(k - 1);
      AndPowerValue(a / 2, k - 1, n - 1);
    }
  }

  lemma {:induction false} AndZero(a: nat, n: nat)
    ensures Bitwise(And, a, 0, n) == 0
  {
    if n > 0 {
      AndZero(a / 2, n - 1);
    }
  }

  /** The top bit of a number below 2^(n+1) is set exactly when the number is at least 2^n. */
  lemma {:induction false} TopBit(v: nat, n: nat)
    requires v < 2 * Pow2(n)
    ensures Bit(v, n) == (v >= Pow2(n))
  {
    if n > 0 {
      TopBit(v / 2, n - 1);
    }
  }

  /** `v & 0x1` is the remainder of v by 2. */
  lemma LowMask(v: Byte)
    ensures ByteOp(And, v, 0x1) == v % 2
  {
    AndPowerValue(v, 0, 8);
  }

  /** `(v & 0x80) >> 7` is the quotient of v by 0x80, the bit a left shift pushes out. */
  lemma HighMask(v: Byte)
    ensures ShiftRight(ByteOp(And, v, 0x80), 7) == v / 0x80
  {
    assert Pow2(7) == 0x80;
    AndPowerValue(v, 7, 8);
    TopBit(v, 7);
  }
}
