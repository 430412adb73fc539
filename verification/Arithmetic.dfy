/** What the arithmetic of the operations means, apart from how it is computed. */
module Arithmetic {
  import opened Words
  import opened Isa

  lemma SignedWrap(v: int)
    requires -0x8000_0000 <= v < 0x8000_0000
    ensures Signed(Wrap(v)) == v
  {
    if v < 0 { QuotientUnique(v, 0x1_0000_0000, -1, v + 0x1_0000_0000); }
  }

  lemma WrapPlus(v: int, k: int)
    ensures Wrap(v + 0x1_0000_0000 * k) == Wrap(v)
  {
    QuotientUnique(v + 0x1_0000_0000 * k, 0x1_0000_0000, v / 0x1_0000_0000 + k, Wrap(v));
  }

  /** l.mul, where it is defined: the signed product exactly, and the low word of the unsigned one. */
  lemma MulExact(x: uint32, y: uint32)
    requires !Overflows(Mul, x, y)
    ensures Signed(AluValue(Mul, x, y)) == Signed(x) * Signed(y) && AluValue(Mul, x, y) == Wrap(x * y)
  {
    SignedWrap(Signed(x) * Signed(y));
    SignedOrNot(x, y);
  }

  /** The low word is the same for the signed and the unsigned product. */
  lemma SignedOrNot(x: uint32, y: uint32)
    ensures Wrap(Signed(x) * Signed(y)) == Wrap(x * y)
  {
    var sx, sy := Signed(x), Signed(y);
    var i, j := if sx < 0 then 1 else 0, if sy < 0 then 1 else 0;
    assert x == sx + 0x1_0000_0000 * i && y == sy + 0x1_0000_0000 * j;
    calc {
      x * y;
      (sx + 0x1_0000_0000 * i) * (sy + 0x1_0000_0000 * j);
      { Expand(sx, sy, i, j); }
      sx * sy + 0x1_0000_0000 * (sx * j + i * sy + 0x1_0000_0000 * (i * j));
    }
    WrapPlus(sx * sy, sx * j + i * sy + 0x1_0000_0000 * (i * j));
  }

  lemma Expand(a: int, b: int, i: int, j: int)
    requires (i == 0 || i == 1) && (j == 0 || j == 1)
    ensures (a + 0x1_0000_0000 * i) * (b + 0x1_0000_0000 * j)
            == a * b + 0x1_0000_0000 * (a * j + i * b + 0x1_0000_0000 * (i * j))
  {
  }

  /** l.sra, l.srai: the signed value divided by 2^n, rounded down. */
  lemma SraFloors(x: uint32, n: nat)
    ensures var q := Signed(ShiftRightSigned(x, n));
            Pow2(n) * q <= Signed(x) < Pow2(n) * (q + 1)
  {
    var p, s := Pow2(n), Signed(x);
    var q := s / p;
    assert s == p * q + s % p;
    QuotientRange(s, p, q);
    SignedWrap(q);
    assert p * (q + 1) == p * q + p;
  }

  lemma QuotientRange(s: int, p: int, q: int)
    requires p >= 1 && -0x8000_0000 <= s < 0x8000_0000 && 0 <= s - p * q < p
    ensures -0x8000_0000 <= q < 0x8000_0000
  {
  }

  /** Truncating division: a remainder smaller than the divisor, with the sign of the dividend. */
  lemma TruncatedRemainder(x: int, y: int)
    requires y != 0
    ensures var r := x - y * Truncated(x, y);
            && (if r < 0 then -r else r) < (if y < 0 then -y else y)
            && (r > 0 ==> x > 0) && (r < 0 ==> x < 0)
  {
    var ax, ay := if x < 0 then -x else x, if y < 0 then -y else y;
    var q, rem := DivMod(ax, ay);
    SignedProduct(x, y, ay, q);
    hide Truncated;
    RemainderOf(x, y * Truncated(x, y), ax, ay * q, rem, ay);
  }

  lemma DivMod(x: nat, y: nat) returns (q: nat, r: nat)
    requires y > 0
    ensures q == x / y && x == y * q + r && r < y && y * q >= 0
  {
    q, r := x / y, x % y;
  }

  lemma RemainderOf(x: int, product: int, ax: nat, aproduct: int, rem: nat, ay: nat)
    requires aproduct >= 0 && ax == (if x < 0 then -x else x) && ax == aproduct + rem && rem < ay
    requires product == if x < 0 then -aproduct else aproduct
    ensures var r := x - product;
            (if r < 0 then -r else r) < ay && (r > 0 ==> x > 0) && (r < 0 ==> x < 0)
  {
  }

  lemma SignedProduct(x: int, y: int, ay: int, q: int)
    requires y != 0 && ay == (if y < 0 then -y else y) && q == (if x < 0 then -x else x) / ay
    ensures y * Truncated(x, y) == if x < 0 then -(ay * q) else ay * q
  {
    assert Truncated(x, y) == if (x < 0) == (y < 0) then q else -q;
    hide Truncated;
    SignCases(x, y, ay, q, Truncated(x, y));
  }

  lemma SignCases(x: int, y: int, ay: int, q: int, t: int)
    requires ay == (if y < 0 then -y else y) && t == if (x < 0) == (y < 0) then q else -q
    ensures y * t == if x < 0 then -(ay * q) else ay * q
  {
    NegatedProduct(y, -y, q);
    NegatedProduct(-q, q, y);
  }

  lemma NegatedProduct(n: int, a: int, b: int)
    requires n == -a
    ensures n * b == -(a * b) && b * n == -(a * b) && n * -b == a * b
  {
  }

  /** l.div: zero for a zero divisor, otherwise the quotient truncated toward zero, for every
      pair of operands but the one whose quotient does not fit. */
  lemma DivTruncates(x: uint32, y: uint32)
    requires y != 0 && !Overflows(Div, x, y)
    ensures var q := Signed(AluValue(Div, x, y));
            var r := Signed(x) - Signed(y) * q;
            && (if r < 0 then -r else r) < (if Signed(y) < 0 then -Signed(y) else Signed(y))
            && (r > 0 ==> Signed(x) > 0) && (r < 0 ==> Signed(x) < 0)
  {
    TruncatedRemainder(Signed(x), Signed(y));
    TruncatedRange(Signed(x), Signed(y));
    SignedWrap(Truncated(Signed(x), Signed(y)));
  }

  lemma TruncatedRange(x: int, y: int)
    requires y != 0 && -0x8000_0000 <= x < 0x8000_0000 && !(x == -0x8000_0000 && y == -1)
    ensures -0x8000_0000 <= Truncated(x, y) < 0x8000_0000
  {
    var ax, ay := if x < 0 then -x else x, if y < 0 then -y else y;
    QuotientBound(ax, ay);
    if ax == 0x8000_0000 && ay >= 2 {
      var q := ax / ay;
      assert ax == ay * q + ax % ay;
      if q >= 0x8000_0000 { MulMono(q, 2, ay); }
    }
  }

  /** The excluded pair: C++ leaves it undefined because the quotient is 2^31. */
  lemma OverflowingDivision(x: uint32, y: uint32)
    requires y != 0
    ensures DivisionOverflows(x, y) <==> Truncated(Signed(x), Signed(y)) == 0x8000_0000
  {
    if !DivisionOverflows(x, y) { TruncatedRange(Signed(x), Signed(y)); }
  }
}
