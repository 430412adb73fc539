/** The instruction formats as the manual gives them (OpenRISC 1000 Architecture Manual 1.0,
    instruction set): a word per mnemonic with its operands zero, and where the operands are. The
    decoder reads and the assembler writes exactly these. */
module Formats {
  import opened Words
  import opened Isa

  /** The word of a mnemonic with all its operands zero. */
  function BaseWord(x: Instr): uint32 {
    match x
    case Jump(_) => 0x0000_0000
    case JumpLink(_) => 0x0400_0000
    case Branch(onFlag, _) => if onFlag then 0x1000_0000 else 0x0c00_0000
    case Nop(_) => 0x1500_0000
    case MovHi(_, _) => 0x1800_0000
    case Sys(_) => 0x2000_0000
    case Trap(_) => 0x2100_0000
    case Rfe => 0x2400_0000
    case JumpReg(_) => 0x4400_0000
    case JumpLinkReg(_) => 0x4800_0000
    case Load(load, _, _, _) =>
      (match load
       case Lwz => 0x8400_0000
       case Lbz => 0x8c00_0000
       case Lbs => 0x9000_0000
       case Lhz => 0x9400_0000
       case Lhs => 0x9800_0000)
    case Store(width, _, _, _) => if width == 4 then 0xd400_0000 else if width == 1 then 0xd800_0000 else 0xdc00_0000
    case AluImm(imm, _, _, _) =>
      (match imm
       case Addi => 0x9c00_0000
       case Andi => 0xa400_0000
       case Ori => 0xa800_0000
       case Xori => 0xac00_0000
       case Slli => 0xb800_0000
       case Srli => 0xb800_0040
       case Srai => 0xb800_0080)
    case Mfspr(_, _, _) => 0xb400_0000
    case Mtspr(_, _, _) => 0xc000_0000
    case CompareImm(c, _, _) => 0xbc00_0000 + Condition(c)
    case Alu(op, _, _, _) =>
      (match op
       case Add => 0xe000_0000
       case Sub => 0xe000_0002
       case And => 0xe000_0003
       case Or => 0xe000_0004
       case Xor => 0xe000_0005
       case Sll => 0xe000_0008
       case Srl => 0xe000_0048
       case Sra => 0xe000_0088
       case Ff1 => 0xe000_000f
       case Fl1 => 0xe000_010f
       case Mul => 0xe000_0306
       case Div => 0xe000_0309
       case Divu => 0xe000_030a)
    case Compare(c, _, _) => 0xe400_0000 + Condition(c)
    case Illegal => 0
  }

  function Condition(c: Cond): nat {
    match c
    case Eq => 0x000_0000
    case Ne => 0x020_0000
    case Gtu => 0x040_0000
    case Geu => 0x060_0000
    case Ltu => 0x080_0000
    case Leu => 0x0a0_0000
    case Gts => 0x140_0000
    case Ges => 0x160_0000
    case Lts => 0x180_0000
    case Les => 0x1a0_0000
  }

  // ---------------------------------------------------------------- where the operands are

  predicate AtD(w: uint32, d: nat) { w / 0x20_0000 % 0x20 == d }

  predicate AtA(w: uint32, a: nat) { w / 0x1_0000 % 0x20 == a }

  predicate AtB(w: uint32, b: nat) { w / 0x800 % 0x20 == b }

  /** The low half of the word, as an unsigned or a signed constant. */
  predicate AtK(w: uint32, k: int) { w % 0x1_0000 == k }

  predicate AtI(w: uint32, i: int) { -0x8000 <= i < 0x8000 && (w % 0x1_0000 - i) % 0x1_0000 == 0 }

  /** The constant whose five top bits are where the destination usually is. */
  function Divided(w: uint32): nat { w / 0x20_0000 % 0x20 * 0x800 + w % 0x800 }

  /** A displacement in words, in the low 26 bits. */
  predicate AtN(w: uint32, n: int) {
    n % 4 == 0 && -0x800_0000 <= n < 0x800_0000 && (w % 0x400_0000 - n / 4) % 0x400_0000 == 0
  }

  predicate SameTop(w: uint32, base: uint32, from: nat)
    requires from > 0
  {
    w / from == base / from
  }

  /** The word w is the instruction x; bits that no operand and no opcode takes are free. */
  predicate Spells(x: Instr, w: uint32) {
    var base := BaseWord(x);
    match x
    case Jump(n) => SameTop(w, base, 0x400_0000) && AtN(w, n)
    case JumpLink(n) => SameTop(w, base, 0x400_0000) && AtN(w, n)
    case Branch(_, n) => SameTop(w, base, 0x400_0000) && AtN(w, n)
    case Nop(k) => SameTop(w, base, 0x400_0000) && AtK(w, k)
    case MovHi(d, k) => SameTop(w, base, 0x400_0000) && AtD(w, d) && AtK(w, k)
    case Sys(k) => SameTop(w, base, 0x1_0000) && AtK(w, k)
    case Trap(k) => SameTop(w, base, 0x1_0000) && AtK(w, k)
    case Rfe => SameTop(w, base, 0x400_0000)
    case JumpReg(b) => SameTop(w, base, 0x400_0000) && AtB(w, b)
    case JumpLinkReg(b) => SameTop(w, base, 0x400_0000) && AtB(w, b)
    case Load(_, d, a, i) => SameTop(w, base, 0x400_0000) && AtD(w, d) && AtA(w, a) && AtI(w, i)
    case Store(width, a, b, i) =>
      width in {1, 2, 4} && SameTop(w, base, 0x400_0000) && AtA(w, a) && AtB(w, b)
      && -0x8000 <= i < 0x8000 && (Divided(w) - i) % 0x1_0000 == 0
    case AluImm(imm, d, a, k) =>
      SameTop(w, base, 0x400_0000) && AtD(w, d) && AtA(w, a)
      && if imm.IsShift() then w / 0x40 % 4 == base / 0x40 % 4 && w % 0x20 == k else AtK(w, k)
    case Mfspr(d, a, k) => SameTop(w, base, 0x400_0000) && AtD(w, d) && AtA(w, a) && AtK(w, k)
    case Mtspr(a, b, k) => SameTop(w, base, 0x400_0000) && AtA(w, a) && AtB(w, b) && Divided(w) == k
    case CompareImm(_, a, i) => SameTop(w, base, 0x20_0000) && AtA(w, a) && AtI(w, i)
    case Alu(_, d, a, b) =>
      SameTop(w, base, 0x400_0000) && w % 0x10 == base % 0x10 && w / 0x40 % 0x10 == base / 0x40 % 0x10
      && AtD(w, d) && AtA(w, a) && AtB(w, b)
    case Compare(_, a, b) => SameTop(w, base, 0x20_0000) && AtA(w, a) && AtB(w, b)
    case Illegal => false
  }

  // ---------------------------------------------------------------- the decoder reads them

  lemma NValue(w: uint32)
    ensures var m := w % 0x400_0000;
            FieldN(w) == if m < 0x200_0000 then 4 * m else 4 * m - 0x1000_0000
  {
    var q, m := w / 0x400_0000, w % 0x400_0000;
    QuotientUnique(w * 0x40, 0x1_0000_0000, q, 0x40 * m);
  }

  lemma NExactly(w: uint32, n: int)
    ensures FieldN(w) == n <==> AtN(w, n)
  {
    NValue(w);
    hide FieldN;
    var m, k := w % 0x400_0000, n / 4;
    if AtN(w, n) {
      var q := (m - k) / 0x400_0000;
      assert m - k == 0x400_0000 * q && (q == 0 || q == 1);
    }
    if n % 4 == 0 && (m == k || m == k + 0x400_0000) {
      QuotientUnique(m - k, 0x400_0000, if m == k then 0 else 1, 0);
    }
  }

  lemma IExactly(w: uint32, i: int)
    ensures Signed16(FieldK(w)) == i <==> AtI(w, i)
  {
  }

  lemma DividedExactly(w: uint32, i: int)
    ensures FieldSplitK(w) == Divided(w)
    ensures Signed16(FieldSplitK(w)) == i <==> -0x8000 <= i < 0x8000 && (Divided(w) - i) % 0x1_0000 == 0
  {
  }

  lemma JumpExactly(x: Instr, w: uint32)
    requires x.Jump? || x.JumpLink? || x.Branch?
    ensures Decode(w) == x <==> Spells(x, w)
  {
    NExactly(w, x.offset);
    hide FieldN, AtN;
  }

  lemma PlainExactly(x: Instr, w: uint32)
    requires x.Nop? || x.MovHi? || x.Sys? || x.Trap? || x.Rfe? || x.JumpReg? || x.JumpLinkReg?
    ensures Decode(w) == x <==> Spells(x, w)
  {
    hide FieldN;
  }

  lemma MemoryExactly(x: Instr, w: uint32)
    requires x.Load? || x.Store?
    ensures Decode(w) == x <==> Spells(x, w)
  {
    IExactly(w, x.i);
    DividedExactly(w, x.i);
    hide FieldN, AtI, FieldSplitK, Divided, Signed16, FieldK;
  }

  lemma ImmediateExactly(x: Instr, w: uint32)
    requires x.AluImm? || x.Mfspr? || x.Mtspr?
    ensures Decode(w) == x <==> Spells(x, w)
  {
    DividedExactly(w, 0);
    hide FieldN, FieldSplitK, Divided, Signed16;
  }

  lemma OperationCode(op: AluOp, ff: nat)
    requires ff < 0x100
    ensures DecodeAlu(ff) == [op] <==> ff == FieldFF(BaseWord(Alu(op, 0, 0, 0)))
  {
    hide Condition;
  }

  lemma FieldDigits(w: uint32, v: uint32)
    ensures FieldFF(w) < 0x100
    ensures FieldFF(w) == FieldFF(v) <==> w % 0x10 == v % 0x10 && w / 0x40 % 0x10 == v / 0x40 % 0x10
  {
  }

  lemma OperationExactly(op: AluOp, w: uint32)
    ensures var base := BaseWord(Alu(op, 0, 0, 0));
            DecodeAlu(FieldFF(w)) == [op] <==> w % 0x10 == base % 0x10 && w / 0x40 % 0x10 == base / 0x40 % 0x10
  {
    hide DecodeAlu, FieldFF, BaseWord;
    FieldDigits(w, BaseWord(Alu(op, 0, 0, 0)));
    OperationCode(op, FieldFF(w));
  }

  lemma RegisterExactly(x: Instr, w: uint32)
    requires x.Alu?
    ensures Decode(w) == x <==> Spells(x, w)
  {
    OperationExactly(x.op, w);
    hide FieldN, FieldSplitK, Divided, Signed16, DecodeAlu, FieldFF;
  }

  lemma ConditionExactly(c: Cond, top: nat)
    ensures DecodeCond(top) == [c] <==> top == Condition(c) / 0x20_0000
  {
  }

  lemma ConditionTop(x: Instr)
    requires x.Compare? || x.CompareImm?
    ensures BaseWord(x) / 0x20_0000 == (if x.Compare? then 0x720 else 0x5e0) + Condition(x.cond) / 0x20_0000
    ensures Condition(x.cond) / 0x20_0000 < 0x20
  {
  }

  lemma CompareExactly(x: Instr, w: uint32)
    requires x.Compare?
    ensures Decode(w) == x <==> Spells(x, w)
  {
    ConditionTop(x);
    var top := w / 0x20_0000;
    if top / 0x20 == 0x39 { ConditionExactly(x.cond, top - 0x720); }
    hide FieldN, FieldSplitK, Divided, Signed16, FieldK, AtI, DecodeCond, Condition, BaseWord, DecodeAlu, FieldFF;
  }

  lemma CompareConstantExactly(x: Instr, w: uint32)
    requires x.CompareImm?
    ensures Decode(w) == x <==> Spells(x, w)
  {
    IExactly(w, x.i);
    ConditionTop(x);
    var top := w / 0x20_0000;
    if top / 0x20 == 0x2f { ConditionExactly(x.cond, top - 0x5e0); }
    hide FieldN, FieldSplitK, Divided, Signed16, FieldK, AtI, DecodeCond, Condition, BaseWord, DecodeAlu, FieldFF;
  }

  /** For every word and every instruction with a mnemonic: the decoder gives the instruction
      exactly if the word is one that the manual spells so. */
  lemma DecodeExactly(x: Instr, w: uint32)
    requires x != Illegal
    ensures Decode(w) == x <==> Spells(x, w)
  {
    hide Decode, Spells;
    match x
    case Jump(_) => JumpExactly(x, w);
    case JumpLink(_) => JumpExactly(x, w);
    case Branch(_, _) => JumpExactly(x, w);
    case Load(_, _, _, _) => MemoryExactly(x, w);
    case Store(_, _, _, _) => MemoryExactly(x, w);
    case AluImm(_, _, _, _) => ImmediateExactly(x, w);
    case Mfspr(_, _, _) => ImmediateExactly(x, w);
    case Mtspr(_, _, _) => ImmediateExactly(x, w);
    case Alu(_, _, _, _) => RegisterExactly(x, w);
    case Compare(_, _, _) => CompareExactly(x, w);
    case CompareImm(_, _, _) => CompareConstantExactly(x, w);
    case _ => PlainExactly(x, w);
  }

  /** A word that spells no instruction is illegal, and no other. */
  lemma IllegalExactly(w: uint32)
    ensures Decode(w) == Illegal <==> forall x: Instr :: !Spells(x, w)
  {
    hide Decode, Spells;
    forall x: Instr | x != Illegal
      ensures Decode(w) == x <==> Spells(x, w)
    {
      DecodeExactly(x, w);
    }
    IllegalUnspelt(w);
    if Decode(w) != Illegal { DecodeExactly(Decode(w), w); }
  }

  lemma IllegalUnspelt(w: uint32)
    ensures !Spells(Illegal, w)
  {
  }

  // ---------------------------------------------------------------- the assembler writes them

  /** The operands in their places. */
  function Operands(x: Instr): int {
    match x
    case Jump(n) => n / 4 % 0x400_0000
    case JumpLink(n) => n / 4 % 0x400_0000
    case Branch(_, n) => n / 4 % 0x400_0000
    case Nop(k) => k
    case MovHi(d, k) => 0x20_0000 * d + k
    case Sys(k) => k
    case Trap(k) => k
    case JumpReg(b) => 0x800 * b
    case JumpLinkReg(b) => 0x800 * b
    case Load(_, d, a, i) => 0x20_0000 * d + 0x1_0000 * a + i % 0x1_0000
    case Store(_, a, b, i) => 0x20_0000 * (i % 0x1_0000 / 0x800) + 0x1_0000 * a + 0x800 * b + i % 0x800
    case AluImm(_, d, a, k) => 0x20_0000 * d + 0x1_0000 * a + k
    case Mfspr(d, a, k) => 0x20_0000 * d + 0x1_0000 * a + k
    case Mtspr(a, b, k) => 0x20_0000 * (k / 0x800) + 0x1_0000 * a + 0x800 * b + k % 0x800
    case CompareImm(_, a, i) => 0x1_0000 * a + i % 0x1_0000
    case Alu(_, d, a, b) => 0x20_0000 * d + 0x1_0000 * a + 0x800 * b
    case Compare(_, a, b) => 0x1_0000 * a + 0x800 * b
    case _ => 0
  }

  lemma HighFive(i: int)
    ensures i / 0x800 % 0x20 == i % 0x1_0000 / 0x800
  {
  }

  lemma SplitWord(x: Instr)
    requires Encodable(x) && (x.Store? || x.Mtspr?)
    ensures Encode(x) == BaseWord(x) + Operands(x)
  {
    HighFive(if x.Store? then x.i else x.k);
  }

  lemma OperationBase(x: Instr)
    requires x.Alu?
    ensures BaseWord(x) == 0x38 * 0x400_0000 + AluCode(x.op).0 % 0x10 * 0x40 + AluCode(x.op).1 % 0x10
  {
  }

  lemma ConditionBase(x: Instr)
    requires x.Compare? || x.CompareImm?
    ensures BaseWord(x) == (if x.Compare? then 0xe400_0000 else 0xbc00_0000) + CondCode(x.cond) * 0x20_0000
    ensures CondCode(x.cond) < 0x10
  {
  }

  lemma OperationWord(x: Instr)
    requires Encodable(x) && x.Alu?
    ensures Encode(x) == BaseWord(x) + Operands(x)
  {
    OperationBase(x);
    hide BaseWord, AluCode;
    assert x.d % 0x20 == x.d && x.a % 0x20 == x.a && x.b % 0x20 == x.b;
  }

  lemma ComparisonWord(x: Instr)
    requires Encodable(x) && (x.Compare? || x.CompareImm?)
    ensures Encode(x) == BaseWord(x) + Operands(x)
  {
    ConditionBase(x);
    hide BaseWord, CondCode, Condition;
    assert x.a % 0x20 == x.a && (x.Compare? ==> x.b % 0x20 == x.b);
    assert (0x720 + CondCode(x.cond)) % 0x800 == 0x720 + CondCode(x.cond);
    assert (0x5e0 + CondCode(x.cond)) % 0x800 == 0x5e0 + CondCode(x.cond);
  }

  lemma ImmediateWord(x: Instr)
    requires Encodable(x) && (x.AluImm? || x.Mfspr? || x.Load?)
    ensures Encode(x) == BaseWord(x) + Operands(x)
  {
    hide AluCode, CondCode, Condition;
    assert x.d % 0x20 == x.d && x.a % 0x20 == x.a;
    if x.Load? {
      assert BaseWord(x) == LoadOpcode(x.load) * 0x400_0000;
    } else if x.Mfspr? {
      assert BaseWord(x) == 0x2d * 0x400_0000;
    } else if x.imm.IsShift() {
      assert BaseWord(x) == 0x2e * 0x400_0000 + ShiftCode(x.imm) % 4 * 0x40;
    } else {
      assert BaseWord(x) == ImmOpcode(x.imm) * 0x400_0000;
    }
  }

  lemma PlainWord(x: Instr)
    requires Encodable(x) && !x.Store? && !x.Mtspr? && !x.Alu? && !x.Compare? && !x.CompareImm?
    requires !x.AluImm? && !x.Mfspr? && !x.Load?
    ensures Encode(x) == BaseWord(x) + Operands(x)
  {
  }

  /** The assembled word spells the instruction, with every free bit zero. */
  lemma EncodeExactly(x: Instr)
    requires Encodable(x)
    ensures Assemblable(x) && Encode(x) == BaseWord(x) + Operands(x) && Spells(x, Encode(x))
  {
    hide Decode, Spells, Encode, BaseWord, Operands;
    DecodeEncode(x, Encode(x));
    DecodeExactly(x, Encode(x));
    if x.Store? || x.Mtspr? {
      SplitWord(x);
    } else if x.Alu? {
      OperationWord(x);
    } else if x.Compare? || x.CompareImm? {
      ComparisonWord(x);
    } else if x.AluImm? || x.Mfspr? || x.Load? {
      ImmediateWord(x);
    } else {
      PlainWord(x);
    }
  }
}
