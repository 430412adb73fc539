/** What the arithmetic, logic and comparison instructions compute, said without computing it
    (OpenRISC 1000 Architecture Manual 1.0, instruction set): each answer is the only one that meets
    its description. */
module Meaning {
  import opened Words
  import opened Isa
  import opened Arithmetic

  /** The bit of x numbered k. */
  predicate BitAt(x: nat, k: nat) { x / Pow2(k) % 2 == 1 }

  /** v is q with x == p * q + r for some 0 <= r < p: the quotient rounded down. */
  predicate Floor(x: int, p: int, v: int) { p * v <= x < p * (v + 1) }

  /** v is the quotient of x and y rounded toward zero: what remains is smaller than y and has the
      sign of x. */
  predicate TowardZero(x: int, y: int, v: int) {
    var r := x - y * v;
    && -(if y < 0 then -y else y) < r < (if y < 0 then -y else y)
    && (r > 0 ==> x > 0) && (r < 0 ==> x < 0)
  }

  predicate Congruent(v: int, w: int) { (v - w) % 0x1_0000_0000 == 0 }

  /** The answer of each operation on x and y. */
  predicate Computed(op: AluOp, x: uint32, y: uint32, v: uint32) {
    match op
    case Add => Congruent(v, x + y)
    case Sub => Congruent(v + y, x)
    case And => forall k :: 0 <= k < 32 ==> (BitAt(v, k) <==> BitAt(x, k) && BitAt(y, k))
    case Or => forall k :: 0 <= k < 32 ==> (BitAt(v, k) <==> BitAt(x, k) || BitAt(y, k))
    case Xor => forall k :: 0 <= k < 32 ==> (BitAt(v, k) <==> BitAt(x, k) != BitAt(y, k))
    case Sll => Congruent(v, x * Pow2(y % 32))
    case Srl => Floor(x, Pow2(y % 32), v)
    case Sra => Floor(Signed(x), Pow2(y % 32), Signed(v))
    case Ff1 =>
      if x == 0 then v == 0
      else 1 <= v <= 32 && BitAt(x, v - 1) && forall k :: 0 <= k < v - 1 ==> !BitAt(x, k)
    case Fl1 =>
      if x == 0 then v == 0
      else 1 <= v <= 32 && BitAt(x, v - 1) && forall k :: v <= k < 32 ==> !BitAt(x, k)
    case Mul => Signed(v) == Signed(x) * Signed(y)
    case Div => if y == 0 then v == 0 else TowardZero(Signed(x), Signed(y), Signed(v))
    case Divu => if y == 0 then v == 0 else Floor(x, y, v)
  }

  // ---------------------------------------------------------------- descriptions fix the answer

  lemma CongruentSame(v: uint32, w: uint32, y: uint32, t: int)
    requires Congruent(v + y, t) && Congruent(w + y, t)
    ensures v == w
  {
    var i, j := (v + y - t) / 0x1_0000_0000, (w + y - t) / 0x1_0000_0000;
    assert v - w == 0x1_0000_0000 * (i - j);
  }

  lemma SignedSame(v: uint32, w: uint32)
    requires Signed(v) == Signed(w)
    ensures v == w
  {
  }

  lemma FloorSame(x: int, p: int, v: int, w: int)
    requires p > 0 && Floor(x, p, v) && Floor(x, p, w)
    ensures v == w
  {
    assert p * (v + 1) == p * v + p && p * (w + 1) == p * w + p;
    QuotientUnique(x, p, v, x - p * v);
    QuotientUnique(x, p, w, x - p * w);
  }

  lemma TowardZeroSame(x: int, y: int, v: int, w: int)
    requires y != 0 && TowardZero(x, y, v) && TowardZero(x, y, w)
    ensures v == w
  {
    var ay := if y < 0 then -y else y;
    var sv, sw := if y < 0 then -v else v, if y < 0 then -w else w;
    NegatedProduct(-y, y, v);
    NegatedProduct(-y, y, w);
    assert ay * sv == y * v && ay * sw == y * w;
    var r, t := x - ay * sv, x - ay * sw;
    if x >= 0 {
      QuotientUnique(x, ay, sv, r);
      QuotientUnique(x, ay, sw, t);
    } else {
      NegatedProduct(-ay, ay, sv);
      NegatedProduct(-ay, ay, sw);
      QuotientUnique(-x, ay, -sv, -r);
      QuotientUnique(-x, ay, -sw, -t);
    }
  }

  /** Words with the same low n bits, and no others, are the same. */
  lemma {:induction false} BitsSame(v: nat, w: nat, n: nat)
    requires v < Pow2(n) && w < Pow2(n) && forall k :: 0 <= k < n ==> (BitAt(v, k) <==> BitAt(w, k))
    ensures v == w
  {
    if n > 0 {
      forall k | 0 <= k < n - 1
        ensures BitAt(v / 2, k) <==> BitAt(w / 2, k)
      {
        HalfBit(v, k + 1);
        HalfBit(w, k + 1);
        assert BitAt(v, k + 1) <==> BitAt(w, k + 1);
      }
      BitsSame(v / 2, w / 2, n - 1);
      assert Pow2(0) == 1;
      assert BitAt(v, 0) <==> BitAt(w, 0);
    }
  }

  lemma WordBitsSame(v: uint32, w: uint32)
    requires forall k :: 0 <= k < 32 ==> (BitAt(v, k) <==> BitAt(w, k))
    ensures v == w
  {
    Pow2Word();
    BitsSame(v, w, 32);
    hide Pow2, BitAt;
  }

  lemma SumOnce(op: AluOp, x: uint32, y: uint32, v: uint32, w: uint32)
    requires op.Add? || op.Sub? || op.Sll? || op.Mul?
    requires Computed(op, x, y, v) && Computed(op, x, y, w)
    ensures v == w
  {
    hide Pow2, BitAt, Floor, TowardZero, Congruent, Signed;
    match op
    case Add => CongruentSame(v, w, 0, x + y);
    case Sub => CongruentSame(v, w, y, x);
    case Sll => CongruentSame(v, w, 0, x * Pow2(y % 32));
    case Mul => SignedSame(v, w);
  }

  lemma LogicOnce(op: AluOp, x: uint32, y: uint32, v: uint32, w: uint32)
    requires op.And? || op.Or? || op.Xor?
    requires Computed(op, x, y, v) && Computed(op, x, y, w)
    ensures v == w
  {
    hide Pow2, BitAt, Floor, TowardZero, Signed, Congruent;
    WordBitsSame(v, w);
  }

  lemma ScanOnce(op: AluOp, x: uint32, y: uint32, v: uint32, w: uint32)
    requires op.Ff1? || op.Fl1?
    requires Computed(op, x, y, v) && Computed(op, x, y, w)
    ensures v == w
  {
    hide Pow2, BitAt, Floor, TowardZero, Signed, Congruent;
  }

  lemma QuotientOnce(op: AluOp, x: uint32, y: uint32, v: uint32, w: uint32)
    requires op.Srl? || op.Sra? || op.Div? || op.Divu?
    requires Computed(op, x, y, v) && Computed(op, x, y, w)
    ensures v == w
  {
    hide Pow2, BitAt, Floor, TowardZero, Signed, Congruent;
    if op.Srl? {
      FloorSame(x, Pow2(y % 32), v, w);
    } else if op.Sra? {
      FloorSame(Signed(x), Pow2(y % 32), Signed(v), Signed(w));
      SignedSame(v, w);
    } else if y != 0 {
      if op.Divu? {
        FloorSame(x, y, v, w);
      } else {
        SignedZero(y);
        TowardZeroSame(Signed(x), Signed(y), Signed(v), Signed(w));
        SignedSame(v, w);
      }
    }
  }

  lemma SignedZero(y: uint32)
    ensures Signed(y) == 0 <==> y == 0
  {
  }

  /** No two answers meet the description of an operation. */
  lemma ComputedOnce(op: AluOp, x: uint32, y: uint32, v: uint32, w: uint32)
    requires Computed(op, x, y, v) && Computed(op, x, y, w)
    ensures v == w
  {
    hide Computed;
    if op.And? || op.Or? || op.Xor? {
      LogicOnce(op, x, y, v, w);
    } else if op.Ff1? || op.Fl1? {
      ScanOnce(op, x, y, v, w);
    } else if op.Srl? || op.Sra? || op.Div? || op.Divu? {
      QuotientOnce(op, x, y, v, w);
    } else {
      SumOnce(op, x, y, v, w);
    }
  }

  // ---------------------------------------------------------------- the answers meet them

  lemma DivideFloor(x: int, p: int)
    requires p > 0
    ensures Floor(x, p, x / p)
  {
    var q := x / p;
    assert x == p * q + x % p;
    assert p * (q + 1) == p * q + p;
  }

  lemma BitwiseMeets(op: BitOp, x: uint32, y: uint32, k: nat)
    requires k < 32
    ensures BitAt(Bitwise32(op, x, y), k) <==> op.On(BitAt(x, k), BitAt(y, k))
  {
    BitwiseAt(op, x, y, 32, k);
    hide Bitwise, Pow2;
  }

  lemma {:induction false} LeastBit(x: nat, n: nat)
    requires 0 < x < Pow2(n)
    ensures 1 <= FirstOne(x) <= n && BitAt(x, FirstOne(x) - 1)
    ensures forall k :: 0 <= k < FirstOne(x) - 1 ==> !BitAt(x, k)
  {
    var r := FirstOne(x);
    assert Pow2(0) == 1;
    if x % 2 == 0 {
      LeastBit(x / 2, n - 1);
      HalfBit(x, r - 1);
      forall k | 0 <= k < r - 1
        ensures !BitAt(x, k)
      {
        if k > 0 {
          HalfBit(x, k);
          assert !BitAt(x / 2, k - 1);
        }
      }
    }
  }

  lemma {:induction false} GreatestBit(x: nat, n: nat)
    requires 0 < x < Pow2(n)
    ensures 1 <= LastOne(x) <= n && BitAt(x, LastOne(x) - 1)
    ensures forall k :: LastOne(x) <= k < n ==> !BitAt(x, k)
  {
    var r := LastOne(x);
    assert Pow2(0) == 1;
    if x == 1 {
      assert LastOne(0) == 0;
      forall k | 1 <= k < n
        ensures !BitAt(x, k)
      {
        OneBit(k);
      }
    } else {
      GreatestBit(x / 2, n - 1);
      assert r == LastOne(x / 2) + 1;
      HalfBit(x, r - 1);
      forall k | r <= k < n
        ensures !BitAt(x, k)
      {
        HalfBit(x, k);
        assert !BitAt(x / 2, k - 1);
      }
    }
  }

  lemma OneBit(k: nat)
    requires k > 0
    ensures !BitAt(1, k)
  {
    HalfBit(1, k);
    ZeroBit(k - 1);
  }

  lemma ZeroBit(k: nat)
    ensures !BitAt(0, k)
  {
    QuotientUnique(0, Pow2(k), 0, 0);
  }

  lemma LogicMeets(op: AluOp, x: uint32, y: uint32)
    requires op.And? || op.Or? || op.Xor?
    ensures Computed(op, x, y, AluValue(op, x, y))
  {
    hide Bitwise32, BitAt;
    forall k | 0 <= k < 32
      ensures BitAt(Bitwise32(AndBits, x, y), k) <==> BitAt(x, k) && BitAt(y, k)
      ensures BitAt(Bitwise32(OrBits, x, y), k) <==> BitAt(x, k) || BitAt(y, k)
      ensures BitAt(Bitwise32(XorBits, x, y), k) <==> BitAt(x, k) != BitAt(y, k)
    {
      BitwiseMeets(AndBits, x, y, k);
      BitwiseMeets(OrBits, x, y, k);
      BitwiseMeets(XorBits, x, y, k);
    }
  }

  lemma ScanMeets(op: AluOp, x: uint32, y: uint32)
    requires op.Ff1? || op.Fl1?
    ensures Computed(op, x, y, AluValue(op, x, y))
  {
    Pow2Word();
    if x != 0 {
      LeastBit(x, 32);
      GreatestBit(x, 32);
    }
    hide Pow2, BitAt;
  }

  lemma DivisionMeets(x: uint32, y: uint32)
    requires !Overflows(Div, x, y)
    ensures Computed(Div, x, y, AluValue(Div, x, y))
  {
    if y != 0 { DivTruncates(x, y); }
    hide AluValue, Overflows;
    assert y == 0 ==> AluValue(Div, x, y) == 0 by { DivideByZero(x); }
  }

  lemma DivideByZero(x: uint32)
    ensures AluValue(Div, x, 0) == 0 && AluValue(Divu, x, 0) == 0
  {
  }

  lemma WrapCongruent(t: int, y: uint32)
    ensures Congruent(Wrap(t), t) && Congruent(Wrap(t - y) + y, t)
  {
    var q := (t - y) / 0x1_0000_0000;
    QuotientUnique(Wrap(t) - t, 0x1_0000_0000, -(t / 0x1_0000_0000), 0);
    QuotientUnique(Wrap(t - y) + y - t, 0x1_0000_0000, -q, 0);
  }

  lemma SumMeets(op: AluOp, x: uint32, y: uint32)
    requires op.Add? || op.Sub? || op.Sll?
    ensures Computed(op, x, y, AluValue(op, x, y))
  {
    WrapCongruent(x + y, 0);
    WrapCongruent(x, y);
    WrapCongruent(x * Pow2(y % 32), 0);
    hide Pow2, BitAt, Bitwise32, Truncated, FirstOne, LastOne, Congruent, Wrap, Signed;
  }

  lemma ProductMeets(x: uint32, y: uint32)
    requires !Overflows(Mul, x, y)
    ensures Computed(Mul, x, y, AluValue(Mul, x, y))
  {
    hide Overflows, AluValue, Signed;
    MulExact(x, y);
  }

  lemma FloorMeets(op: AluOp, x: uint32, y: uint32)
    requires op.Srl? || op.Sra? || op.Divu?
    ensures Computed(op, x, y, AluValue(op, x, y))
  {
    hide Pow2, BitAt, Bitwise32, Truncated, FirstOne, LastOne;
    if op.Srl? {
      DivideFloor(x, Pow2(y % 32));
    } else if op.Sra? {
      SraFloors(x, y % 32);
    } else if y != 0 {
      DivideFloor(x, y);
    }
  }

  lemma AluMeets(op: AluOp, x: uint32, y: uint32)
    requires !Overflows(op, x, y)
    ensures Computed(op, x, y, AluValue(op, x, y))
  {
    hide Computed, AluValue, Overflows;
    if op.And? || op.Or? || op.Xor? {
      LogicMeets(op, x, y);
    } else if op.Ff1? || op.Fl1? {
      ScanMeets(op, x, y);
    } else if op.Div? {
      DivisionMeets(x, y);
    } else if op.Srl? || op.Sra? || op.Divu? {
      FloorMeets(op, x, y);
    } else if op.Mul? {
      ProductMeets(x, y);
    } else {
      SumMeets(op, x, y);
    }
  }

  /** For every operation and all operands but the overflowing ones: the value computed is the one
      and only value that meets the description. */
  lemma AluExactly(op: AluOp, x: uint32, y: uint32, v: uint32)
    requires !Overflows(op, x, y)
    ensures Computed(op, x, y, v) <==> v == AluValue(op, x, y)
  {
    hide Computed, AluValue, Overflows;
    AluMeets(op, x, y);
    if Computed(op, x, y, v) { ComputedOnce(op, x, y, v, AluValue(op, x, y)); }
  }

  /** Subtracting undoes adding, and the other way round. */
  lemma AddSubtract(x: uint32, y: uint32)
    ensures AluValue(Sub, AluValue(Add, x, y), y) == x && AluValue(Add, AluValue(Sub, x, y), y) == x
  {
  }

  // ---------------------------------------------------------------- immediate operands

  /** The operand that an immediate instruction takes for its 16-bit field: sign-extended for l.addi
      and l.xori, zero-extended for the others. */
  predicate Immediate(op: ImmOp, k: uint16, y: uint32) {
    if op.Addi? || op.Xori? then Signed(y) == if k >= 0x8000 then k - 0x1_0000 else k
    else y == k
  }

  predicate Operation(op: ImmOp, alu: AluOp) {
    match op
    case Addi => alu.Add?
    case Andi => alu.And?
    case Ori => alu.Or?
    case Xori => alu.Xor?
    case Slli => alu.Sll?
    case Srli => alu.Srl?
    case Srai => alu.Sra?
  }

  lemma ImmediateExactly(op: ImmOp, k: uint16, y: uint32)
    ensures Immediate(op, k, y) <==> y == ImmOperand(op, k)
    ensures Operation(op, ImmToAlu(op)) && !Overflows(ImmToAlu(op), 0, 0)
  {
  }

  // ---------------------------------------------------------------- comparisons

  predicate Leads(x: uint32, d: nat, y: uint32) { d > 0 && x + d == y }

  /** x is below y: some positive distance leads from x to y. */
  ghost predicate Below(x: uint32, y: uint32) { exists d: nat :: Leads(x, d, y) }

  /** The order of signed words is that of the unsigned ones half a range on. */
  function Flipped(x: uint32): uint32 { (x + 0x8000_0000) % 0x1_0000_0000 }

  /** The answer of each comparison. */
  ghost predicate Answer(c: Cond, x: uint32, y: uint32) {
    match c
    case Eq => x == y
    case Ne => x != y
    case Ltu => Below(x, y)
    case Gtu => Below(y, x)
    case Leu => !Below(y, x)
    case Geu => !Below(x, y)
    case Lts => Below(Flipped(x), Flipped(y))
    case Gts => Below(Flipped(y), Flipped(x))
    case Les => !Below(Flipped(y), Flipped(x))
    case Ges => !Below(Flipped(x), Flipped(y))
  }

  lemma BelowIsLess(x: uint32, y: uint32)
    ensures Below(x, y) <==> x < y
  {
    if x < y { assert Leads(x, y - x, y); }
  }

  lemma FlippedOrder(x: uint32, y: uint32)
    ensures Flipped(x) < Flipped(y) <==> Signed(x) < Signed(y)
  {
  }

  /** For every comparison and all operands. */
  lemma HoldsExactly(c: Cond, x: uint32, y: uint32)
    ensures Holds(c, x, y) <==> Answer(c, x, y)
  {
    BelowIsLess(x, y);
    BelowIsLess(y, x);
    BelowIsLess(Flipped(x), Flipped(y));
    BelowIsLess(Flipped(y), Flipped(x));
    FlippedOrder(x, y);
    FlippedOrder(y, x);
    hide Below, Flipped, Signed;
  }

  /** The comparisons among themselves: three exclusive and exhaustive answers in either order, and
      the others are their negations. */
  lemma Trichotomy(x: uint32, y: uint32)
    ensures Holds(Ltu, x, y) || Holds(Eq, x, y) || Holds(Gtu, x, y)
    ensures !(Holds(Ltu, x, y) && Holds(Eq, x, y)) && !(Holds(Eq, x, y) && Holds(Gtu, x, y))
    ensures !(Holds(Ltu, x, y) && Holds(Gtu, x, y))
    ensures Holds(Lts, x, y) || Holds(Eq, x, y) || Holds(Gts, x, y)
    ensures !(Holds(Lts, x, y) && Holds(Eq, x, y)) && !(Holds(Eq, x, y) && Holds(Gts, x, y))
    ensures !(Holds(Lts, x, y) && Holds(Gts, x, y))
    ensures Holds(Geu, x, y) <==> !Holds(Ltu, x, y)
    ensures Holds(Leu, x, y) <==> !Holds(Gtu, x, y)
    ensures Holds(Ges, x, y) <==> !Holds(Lts, x, y)
    ensures Holds(Les, x, y) <==> !Holds(Gts, x, y)
    ensures Holds(Ne, x, y) <==> !Holds(Eq, x, y)
  {
  }

  // ---------------------------------------------------------------- loaded values

  /** What a load leaves in a register, from the value v of the bytes it read. */
  predicate Loaded(kind: LoadKind, v: uint32, r: uint32) {
    match kind
    case Lwz => r == v
    case Lbz => 0 <= r < 0x100 && (r - v) % 0x100 == 0
    case Lhz => 0 <= r < 0x1_0000 && (r - v) % 0x1_0000 == 0
    case Lbs => -0x80 <= Signed(r) < 0x80 && (Signed(r) - v) % 0x100 == 0
    case Lhs => -0x8000 <= Signed(r) < 0x8000 && (Signed(r) - v) % 0x1_0000 == 0
  }

  /** Bytes and halfwords come from memory as such. */
  lemma ExtendExactly(kind: LoadKind, v: uint32, r: uint32)
    requires kind.Lbz? || kind.Lbs? ==> v < 0x100
    requires kind.Lhz? || kind.Lhs? ==> v < 0x1_0000
    ensures Loaded(kind, v, r) <==> r == kind.Extend(v)
  {
  }
}
