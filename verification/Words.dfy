/** Machine words: the unsigned integer types of simctty/types.h as bounded integers,
    with wrap-around, sign and bit operations written out. */
module Words {

  type uint8 = x: int | 0 <= x < 0x100
  type uint16 = x: int | 0 <= x < 0x1_0000
  type uint32 = x: int | 0 <= x < 0x1_0000_0000

  /** Reduction of an integer to 32 bits: C++ unsigned arithmetic. */
  function Wrap(x: int): uint32 {
    x % 0x1_0000_0000
  }

  /** The value of a word read as a two's complement number: static_cast<int32>. */
  function Signed(x: uint32): int {
    if x < 0x8000_0000 then x else x - 0x1_0000_0000
  }

  function SignExtend8(x: uint8): uint32 {
    if x < 0x80 then x else x + 0xffff_ff00
  }

  function SignExtend16(x: uint16): uint32 {
    if x < 0x8000 then x else x + 0xffff_0000
  }

  /** A 16-bit field read as int16. */
  function Signed16(x: uint16): int {
    if x < 0x8000 then x else x - 0x1_0000
  }

  /** The bytes of a word, from the least significant up. */
  function Byte0(v: uint32): uint8 { v % 0x100 }

  function Byte1(v: uint32): uint8 { v / 0x100 % 0x100 }

  function Byte2(v: uint32): uint8 { v / 0x1_0000 % 0x100 }

  function Byte3(v: uint32): uint8 { v / 0x100_0000 }

  /** The word and halfword made of given bytes, most significant first. */
  function Word(b3: int, b2: int, b1: int, b0: int): int {
    b3 * 0x100_0000 + b2 * 0x1_0000 + b1 * 0x100 + b0
  }

  function Half(b1: int, b0: int): int {
    b1 * 0x100 + b0
  }

  lemma WordBytes(v: uint32)
    ensures Word(Byte3(v), Byte2(v), Byte1(v), Byte0(v)) == v
    ensures Half(Byte1(v), Byte0(v)) == v % 0x1_0000
  {
    LowHalf(v);
    HighHalf(v);
    hide Byte0, Byte1, Byte2, Byte3;
  }

  lemma LowHalf(v: uint32)
    ensures Byte1(v) * 0x100 + Byte0(v) == v % 0x1_0000
  {
    var h, l := v / 0x1_0000, v % 0x1_0000;
    QuotientUnique(v, 0x100, h * 0x100 + l / 0x100, l % 0x100);
    QuotientUnique(h * 0x100 + l / 0x100, 0x100, h, l / 0x100);
  }

  lemma HighHalf(v: uint32)
    ensures Byte3(v) * 0x100_0000 + Byte2(v) * 0x1_0000 == v - v % 0x1_0000
  {
    var h, l := v / 0x1_0000, v % 0x1_0000;
    QuotientUnique(v, 0x100_0000, h / 0x100, h % 0x100 * 0x1_0000 + l);
  }

  function Pow2(n: nat): (p: nat)
    ensures p >= 1
  {
    if n == 0 then 1 else 2 * Pow2(n - 1)
  }

  lemma Pow2Add(m: nat, n: nat)
    ensures Pow2(m + n) == Pow2(m) * Pow2(n)
  {
    if m > 0 { Pow2Add(m - 1, n); }
  }

  lemma Pow2Word()
    ensures Pow2(30) == 0x4000_0000 && Pow2(31) == 0x8000_0000 && Pow2(32) == 0x1_0000_0000
  {
    assert Pow2(5) == 32;
    Pow2Add(5, 5);
    Pow2Add(10, 5);
    Pow2Add(15, 15);
  }

  /** True if the bit of weight `weight` (a power of two) is set in x. */
  predicate Bit(x: int, weight: int)
    requires weight > 0
  {
    x / weight % 2 == 1
  }

  // ---------------------------------------------------------------- bitwise operators

  datatype BitOp = AndBits | OrBits | XorBits {
    predicate On(p: bool, q: bool) {
      match this
      case AndBits => p && q
      case OrBits => p || q
      case XorBits => p != q
    }
  }

  /** The n-bit bitwise combination of x and y, lowest bit first. */
  function Bitwise(op: BitOp, x: nat, y: nat, n: nat): (r: nat)
    ensures r < Pow2(n)
  {
    if n == 0 then 0
    else 2 * Bitwise(op, x / 2, y / 2, n - 1) + if op.On(x % 2 == 1, y % 2 == 1) then 1 else 0
  }

  function Bitwise32(op: BitOp, x: uint32, y: uint32): uint32 {
    Pow2Word();
    Bitwise(op, x, y, 32)
  }

  /** Every bit of a bitwise result is the operator applied to the operands' bits there. */
  lemma {:induction false} BitwiseAt(op: BitOp, x: nat, y: nat, n: nat, k: nat)
    requires k < n
    ensures Bit(Bitwise(op, x, y, n), Pow2(k)) == op.On(Bit(x, Pow2(k)), Bit(y, Pow2(k)))
  {
    if k > 0 {
      BitwiseAt(op, x / 2, y / 2, n - 1, k - 1);
      HalfBit(x, k);
      HalfBit(y, k);
      HalfBit(Bitwise(op, x, y, n), k);
    }
  }

  lemma HalfBit(x: nat, k: nat)
    requires k > 0
    ensures Bit(x, Pow2(k)) == Bit(x / 2, Pow2(k - 1))
  {
    DivDiv(x, 2, Pow2(k - 1));
  }

  lemma DivDiv(x: nat, a: nat, b: nat)
    requires a > 0 && b > 0
    ensures a * b > 0 && x / a / b == x / (a * b)
  {
    var q, r := x / a, x % a;
    var s, t := q / b, q % b;
    assert x == a * q + r && q == b * s + t;
    calc { a * q; a * (b * s + t); a * (b * s) + a * t; { MulAssoc(a, b, s); } (a * b) * s + a * t; }
    assert a * t + r < a * b by {
      assert t <= b - 1;
      MulMono(a, t, b - 1);
      assert a * (b - 1) == a * b - a;
    }
    QuotientUnique(x, a * b, s, a * t + r);
  }

  lemma MulAssoc(a: int, b: int, c: int)
    ensures a * (b * c) == (a * b) * c
  {
  }

  lemma MulMono(a: nat, b: int, c: int)
    requires b <= c
    ensures a * b <= a * c
  {
  }

  lemma QuotientUnique(x: int, d: int, q: int, r: int)
    requires 0 <= r < d && x == d * q + r
    ensures x / d == q && x % d == r
  {
    var q', r' := x / d, x % d;
    assert x == d * q' + r';
    assert d * (q - q') == r' - r;
    if q - q' >= 1 { MulMono(d, 1, q - q'); }
    if q - q' <= -1 { MulMono(d, q - q', -1); }
  }

  /** XOR with 3 mirrors the low two bits and leaves the rest: the byte lane swap. */
  lemma XorThree(a: uint32)
    ensures Bitwise32(XorBits, a, 3) == a / 4 * 4 + 3 - a % 4
  {
    Pow2Word();
    XorZero(a / 4, 30);
    assert Bitwise(XorBits, a / 2 / 2, 0, 30) == a / 4;
    assert Bitwise(XorBits, a / 2, 1, 31) == 2 * (a / 4) + 1 - a / 2 % 2;
    assert 3 / 2 == 1 && 3 % 2 == 1 && 1 / 2 == 0 && 1 % 2 == 1;
    assert Bitwise(XorBits, a, 3, 32) == 2 * Bitwise(XorBits, a / 2, 1, 31) + 1 - a % 2;
  }

  /** The address with the halves of its word swapped. */
  function SwapHalves(a: nat): nat { a / 4 * 4 + (a % 4 + 2) % 4 }

  /** XOR with 2 swaps the halves of a word: the halfword lane swap. */
  lemma XorTwo(a: uint32)
    ensures Bitwise32(XorBits, a, 2) == SwapHalves(a)
  {
    Pow2Word();
    XorZero(a / 4, 30);
    assert Bitwise(XorBits, a / 2 / 2, 0, 30) == a / 4;
    assert Bitwise(XorBits, a / 2, 1, 31) == 2 * (a / 4) + 1 - a / 2 % 2;
    assert 2 / 2 == 1 && 2 % 2 == 0 && 1 / 2 == 0 && 1 % 2 == 1;
    assert Bitwise(XorBits, a, 2, 32) == 2 * Bitwise(XorBits, a / 2, 1, 31) + a % 2;
  }

  lemma {:induction false} XorZero(x: nat, n: nat)
    requires x < Pow2(n)
    ensures Bitwise(XorBits, x, 0, n) == x
  {
    if n > 0 { XorZero(x / 2, n - 1); }
  }

  lemma {:induction false} OrZero(x: nat, n: nat)
    requires x < Pow2(n)
    ensures Bitwise(OrBits, 0, x, n) == x
  {
    if n > 0 { OrZero(x / 2, n - 1); }
  }

  // ---------------------------------------------------------------- single-bit scans

  /** One plus the index of the least significant 1 bit; 0 for 0. */
  function FirstOne(x: nat): (r: nat)
    ensures r == 0 <==> x == 0
  {
    if x == 0 then 0 else if x % 2 == 1 then 1 else 1 + FirstOne(x / 2)
  }

  /** One plus the index of the most significant 1 bit; 0 for 0. */
  function LastOne(x: nat): (r: nat)
    ensures r == 0 <==> x == 0
  {
    if x == 0 then 0 else 1 + LastOne(x / 2)
  }

  /** FirstOne is the least set bit: 2^(r-1) divides x and 2^r does not. */
  lemma {:induction false} FirstOneLeast(x: nat)
    requires x > 0
    ensures x % Pow2(FirstOne(x) - 1) == 0 && x % Pow2(FirstOne(x)) != 0
  {
    var r := FirstOne(x);
    if x % 2 == 1 {
      assert Pow2(1) == 2;
    } else {
      FirstOneLeast(x / 2);
      EvenMod(x / 2, Pow2(r - 2));
      EvenMod(x / 2, Pow2(r - 1));
    }
  }

  lemma EvenMod(h: nat, p: nat)
    requires p > 0
    ensures 2 * h % (2 * p) == 2 * (h % p)
  {
    var q, r := h / p, h % p;
    assert h == p * q + r;
    assert 2 * h == 2 * (p * q) + 2 * r;
    MulAssoc(2, p, q);
    QuotientUnique(2 * h, 2 * p, q, 2 * r);
  }

  /** LastOne is the greatest set bit: 2^(r-1) <= x < 2^r. */
  lemma {:induction false} LastOneGreatest(x: nat)
    requires x > 0
    ensures Pow2(LastOne(x) - 1) <= x < Pow2(LastOne(x))
  {
    if x == 1 {
      assert LastOne(0) == 0 && Pow2(1) == 2;
    } else {
      LastOneGreatest(x / 2);
    }
  }
}
