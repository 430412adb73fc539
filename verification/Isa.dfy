/** The instruction set: instructions as data, their 32-bit encoding as the CPU decodes it
    (simctty/cpu.cc) and as the assembler packs it (simctty/assembler.cc), and the arithmetic
    of the operations. */
module Isa {
  import opened Words

  datatype AluOp = Add | Sub | And | Or | Xor | Sll | Srl | Sra | Ff1 | Fl1 | Mul | Div | Divu

  datatype Cond = Eq | Ne | Gtu | Geu | Ltu | Leu | Gts | Ges | Lts | Les

  datatype LoadKind = Lwz | Lbz | Lbs | Lhz | Lhs {
    function Width(): nat {
      match this
      case Lwz => 4
      case Lbz => 1
      case Lbs => 1
      case Lhz => 2
      case Lhs => 2
    }

    /** The register value for what memory returned. */
    function Extend(v: uint32): uint32 {
      match this
      case Lbs => SignExtend8(v % 0x100)
      case Lhs => SignExtend16(v % 0x1_0000)
      case _ => v
    }
  }

  /** Immediate operations; the immediate is stored as the 16- or 5-bit field. */
  datatype ImmOp = Addi | Andi | Ori | Xori | Slli | Srli | Srai {
    predicate IsShift() { Slli? || Srli? || Srai? }
  }

  datatype Instr =
    | Jump(offset: int)
    | JumpLink(offset: int)
    | Branch(onFlag: bool, offset: int)
    | Nop(k: uint16)
    | MovHi(d: nat, k: uint16)
    | Sys(k: uint16)
    | Trap(k: uint16)
    | Rfe
    | JumpReg(b: nat)
    | JumpLinkReg(b: nat)
    | Load(load: LoadKind, d: nat, a: nat, i: int)
    | Store(width: nat, a: nat, b: nat, i: int)
    | AluImm(imm: ImmOp, d: nat, a: nat, k: uint16)
    | Mfspr(d: nat, a: nat, k: uint16)
    | Mtspr(a: nat, b: nat, k: uint16)
    | CompareImm(cond: Cond, a: nat, i: int)
    | Alu(op: AluOp, d: nat, a: nat, b: nat)
    | Compare(cond: Cond, a: nat, b: nat)
    | Illegal

  // ---------------------------------------------------------------- decoding

  function FieldD(w: uint32): nat { w / 0x20_0000 % 0x20 }

  function FieldA(w: uint32): nat { w / 0x1_0000 % 0x20 }

  function FieldB(w: uint32): nat { w / 0x800 % 0x20 }

  function FieldK(w: uint32): uint16 { w % 0x1_0000 }

  function FieldSplitK(w: uint32): uint16 { w % 0x800 + w / 0x20_0000 % 0x20 * 0x800 }

  /** The byte offset of a jump: the low 26 bits, sign-extended and multiplied by 4. */
  function FieldN(w: uint32): int { Signed(Wrap(w * 0x40)) / 0x10 }

  function FieldFF(w: uint32): nat { w % 0x10 + w / 0x40 % 0x10 * 0x10 }

  /** The comparison selected by the low four bits of an 11-bit opcode. */
  function DecodeCond(c: nat): (r: seq<Cond>) {
    if c == 0 then [Eq] else if c == 1 then [Ne] else if c == 2 then [Gtu] else if c == 3 then [Geu]
    else if c == 4 then [Ltu] else if c == 5 then [Leu] else if c == 10 then [Gts] else if c == 11 then [Ges]
    else if c == 12 then [Lts] else if c == 13 then [Les] else []
  }

  function DecodeAlu(ff: nat): seq<AluOp> {
    if ff == 0x00 then [Add] else if ff == 0x02 then [Sub] else if ff == 0x03 then [And]
    else if ff == 0x04 then [Or] else if ff == 0x05 then [Xor] else if ff == 0x08 then [Sll]
    else if ff == 0x0f then [Ff1] else if ff == 0x18 then [Srl] else if ff == 0x28 then [Sra]
    else if ff == 0x4f then [Fl1] else if ff == 0xc6 then [Mul] else if ff == 0xc9 then [Div]
    else if ff == 0xca then [Divu] else []
  }

  function Decode(w: uint32): Instr {
    var opcode := w / 0x400_0000;
    match opcode
    case 0x00 => Jump(FieldN(w))
    case 0x01 => JumpLink(FieldN(w))
    case 0x03 => Branch(false, FieldN(w))
    case 0x04 => Branch(true, FieldN(w))
    case 0x05 => Nop(FieldK(w))
    case 0x06 => MovHi(FieldD(w), FieldK(w))
    case 0x08 =>
      if w / 0x1_0000 == 0x2000 then Sys(FieldK(w))
      else if w / 0x1_0000 == 0x2100 then Trap(FieldK(w))
      else Illegal
    case 0x09 => Rfe
    case 0x11 => JumpReg(FieldB(w))
    case 0x12 => JumpLinkReg(FieldB(w))
    case 0x21 => Load(Lwz, FieldD(w), FieldA(w), Signed16(FieldK(w)))
    case 0x23 => Load(Lbz, FieldD(w), FieldA(w), Signed16(FieldK(w)))
    case 0x24 => Load(Lbs, FieldD(w), FieldA(w), Signed16(FieldK(w)))
    case 0x25 => Load(Lhz, FieldD(w), FieldA(w), Signed16(FieldK(w)))
    case 0x26 => Load(Lhs, FieldD(w), FieldA(w), Signed16(FieldK(w)))
    case 0x27 => AluImm(Addi, FieldD(w), FieldA(w), FieldK(w))
    case 0x29 => AluImm(Andi, FieldD(w), FieldA(w), FieldK(w))
    case 0x2a => AluImm(Ori, FieldD(w), FieldA(w), FieldK(w))
    case 0x2b => AluImm(Xori, FieldD(w), FieldA(w), FieldK(w))
    case 0x2d => Mfspr(FieldD(w), FieldA(w), FieldK(w))
    case 0x2e =>
      var f := w / 0x40 % 4;
      if f == 3 then Illegal
      else AluImm(if f == 0 then Slli else if f == 1 then Srli else Srai, FieldD(w), FieldA(w), w % 0x20)
    case 0x2f =>
      var c := DecodeCond(w / 0x20_0000 - 0x5e0);
      if c == [] then Illegal else CompareImm(c[0], FieldA(w), Signed16(FieldK(w)))
    case 0x30 => Mtspr(FieldA(w), FieldB(w), FieldSplitK(w))
    case 0x35 => Store(4, FieldA(w), FieldB(w), Signed16(FieldSplitK(w)))
    case 0x36 => Store(1, FieldA(w), FieldB(w), Signed16(FieldSplitK(w)))
    case 0x37 => Store(2, FieldA(w), FieldB(w), Signed16(FieldSplitK(w)))
    case 0x38 =>
      var op := DecodeAlu(FieldFF(w));
      if op == [] then Illegal else Alu(op[0], FieldD(w), FieldA(w), FieldB(w))
    case 0x39 =>
      var c := DecodeCond(w / 0x20_0000 - 0x720);
      if c == [] then Illegal else Compare(c[0], FieldA(w), FieldB(w))
    case _ => Illegal
  }

  // ---------------------------------------------------------------- encoding

  /** Operands the assembler's mnemonics represent without loss. */
  predicate Encodable(x: Instr) {
    match x
    case Jump(n) => ValidOffset(n)
    case JumpLink(n) => ValidOffset(n)
    case Branch(_, n) => ValidOffset(n)
    case MovHi(d, _) => d < 32
    case JumpReg(b) => b < 32
    case JumpLinkReg(b) => b < 32
    case Load(_, d, a, i) => d < 32 && a < 32 && -0x8000 <= i < 0x8000
    case Store(width, a, b, i) => width in {1, 2, 4} && a < 32 && b < 32 && -0x8000 <= i < 0x8000
    case AluImm(op, d, a, k) => d < 32 && a < 32 && (op.IsShift() ==> k < 32)
    case Mfspr(d, a, _) => d < 32 && a < 32
    case Mtspr(a, b, _) => a < 32 && b < 32
    case CompareImm(_, a, i) => a < 32 && -0x8000 <= i < 0x8000
    case Alu(_, d, a, b) => d < 32 && a < 32 && b < 32
    case Compare(_, a, b) => a < 32 && b < 32
    case Illegal => false
    case _ => true
  }

  /** Operands the mnemonics take: their types admit any register number, shift amount and word
      displacement, which the encoders mask. l.movhi does not mask its register. */
  predicate Assemblable(x: Instr) {
    match x
    case Jump(n) => n % 4 == 0
    case JumpLink(n) => n % 4 == 0
    case Branch(_, n) => n % 4 == 0
    case MovHi(d, _) => d < 32
    case Load(_, _, _, i) => -0x8000 <= i < 0x8000
    case Store(width, _, _, i) => width in {1, 2, 4} && -0x8000 <= i < 0x8000
    case CompareImm(_, _, i) => -0x8000 <= i < 0x8000
    case Illegal => false
    case _ => true
  }

  /** A displacement reduced to the 26-bit field of words. */
  function MaskedOffset(n: int): int {
    var m := n / 4 % 0x400_0000;
    if m < 0x200_0000 then 4 * m else 4 * m - 0x1000_0000
  }

  /** What the masks leave of an instruction's operands. */
  function Masked(x: Instr): Instr {
    match x
    case Jump(n) => Jump(MaskedOffset(n))
    case JumpLink(n) => JumpLink(MaskedOffset(n))
    case Branch(onFlag, n) => Branch(onFlag, MaskedOffset(n))
    case JumpReg(b) => JumpReg(b % 0x20)
    case JumpLinkReg(b) => JumpLinkReg(b % 0x20)
    case Load(kind, d, a, i) => Load(kind, d % 0x20, a % 0x20, i)
    case Store(width, a, b, i) => Store(width, a % 0x20, b % 0x20, i)
    case AluImm(op, d, a, k) => AluImm(op, d % 0x20, a % 0x20, if op.IsShift() then k % 0x20 else k)
    case Mfspr(d, a, k) => Mfspr(d % 0x20, a % 0x20, k)
    case Mtspr(a, b, k) => Mtspr(a % 0x20, b % 0x20, k)
    case CompareImm(c, a, i) => CompareImm(c, a % 0x20, i)
    case Alu(op, d, a, b) => Alu(op, d % 0x20, a % 0x20, b % 0x20)
    case Compare(c, a, b) => Compare(c, a % 0x20, b % 0x20)
    case _ => x
  }

  predicate ValidOffset(n: int) { n % 4 == 0 && -0x800_0000 <= n < 0x800_0000 }

  // The packing formats. Fields are masked as in the source; a sum of disjoint fields is their
  // bitwise or.

  function PackN(opcode: nat, n: int): int { opcode * 0x400_0000 + n % 0x400_0000 }

  function PackEXK(opcode: nat, k: nat): int { opcode * 0x100_0000 + k }

  function PackDFK(opcode: nat, d: nat, k: nat): int { opcode * 0x400_0000 + d * 0x20_0000 + k }

  function PackK(opcode: nat, k: nat): int { opcode * 0x1_0000 + k }

  function PackB(opcode: nat, b: nat): int { opcode * 0x400_0000 + b % 0x20 * 0x800 }

  function PackDAK(opcode: nat, d: nat, a: nat, k: int): int {
    opcode * 0x400_0000 + d % 0x20 * 0x20_0000 + a % 0x20 * 0x1_0000 + k % 0x1_0000
  }

  function PackDAFL(opcode: nat, d: nat, a: nat, f: nat, l: nat): int {
    opcode * 0x400_0000 + d % 0x20 * 0x20_0000 + a % 0x20 * 0x1_0000 + f % 4 * 0x40 + l % 0x40
  }

  function PackAI(opcode: nat, a: nat, i: int): int {
    opcode % 0x800 * 0x20_0000 + a % 0x20 * 0x1_0000 + i % 0x1_0000
  }

  function PackABK(opcode: nat, a: nat, b: nat, k: int): int {
    opcode * 0x400_0000 + k / 0x800 % 0x20 * 0x20_0000 + a % 0x20 * 0x1_0000 + b % 0x20 * 0x800 + k % 0x800
  }

  function PackDABFF(opcode: nat, d: nat, a: nat, b: nat, f1: nat, f2: nat): int {
    opcode * 0x400_0000 + d % 0x20 * 0x20_0000 + a % 0x20 * 0x1_0000 + b % 0x20 * 0x800 + f1 % 0x10 * 0x40 + f2 % 0x10
  }

  function PackAB(opcode: nat, a: nat, b: nat): int {
    opcode % 0x800 * 0x20_0000 + a % 0x20 * 0x1_0000 + b % 0x20 * 0x800
  }

  function LoadOpcode(kind: LoadKind): nat {
    match kind
    case Lwz => 0x21
    case Lbz => 0x23
    case Lbs => 0x24
    case Lhz => 0x25
    case Lhs => 0x26
  }

  function StoreOpcode(width: nat): nat {
    if width == 4 then 0x35 else if width == 1 then 0x36 else 0x37
  }

  function ImmOpcode(op: ImmOp): nat {
    match op
    case Addi => 0x27
    case Andi => 0x29
    case Ori => 0x2a
    case Xori => 0x2b
    case _ => 0x2e
  }

  function ShiftCode(op: ImmOp): nat {
    match op
    case Slli => 0x0
    case Srli => 0x1
    case _ => 0x2
  }

  function CondCode(c: Cond): (r: nat) {
    match c
    case Eq => 0x0
    case Ne => 0x1
    case Gtu => 0x2
    case Geu => 0x3
    case Ltu => 0x4
    case Leu => 0x5
    case Gts => 0xa
    case Ges => 0xb
    case Lts => 0xc
    case Les => 0xd
  }

  /** The f1 and f2 fields of a register operation. */
  function AluCode(op: AluOp): (nat, nat) {
    match op
    case Add => (0x0, 0x0)
    case Sub => (0x0, 0x2)
    case And => (0x0, 0x3)
    case Or => (0x0, 0x4)
    case Xor => (0x0, 0x5)
    case Ff1 => (0x0, 0xf)
    case Sll => (0x0, 0x8)
    case Srl => (0x1, 0x8)
    case Sra => (0x2, 0x8)
    case Fl1 => (0x4, 0xf)
    case Mul => (0xc, 0x6)
    case Div => (0xc, 0x9)
    case Divu => (0xc, 0xa)
  }

  /** The word the assembler appends for a mnemonic and its operands. */
  function Encode(x: Instr): uint32
    requires Assemblable(x)
  {
    match x
    case Jump(n) => PackN(0x0, n / 4)
    case JumpLink(n) => PackN(0x1, n / 4)
    case Branch(onFlag, n) => PackN(if onFlag then 0x4 else 0x3, n / 4)
    case Nop(k) => PackEXK(0x15, k)
    case MovHi(d, k) => PackDFK(0x6, d, k)
    case Sys(k) => PackK(0x2000, k)
    case Trap(k) => PackK(0x2100, k)
    case Rfe => 0x9 * 0x400_0000
    case JumpReg(b) => PackB(0x11, b)
    case JumpLinkReg(b) => PackB(0x12, b)
    case Load(kind, d, a, i) => PackDAK(LoadOpcode(kind), d, a, i)
    case Store(width, a, b, i) => PackABK(StoreOpcode(width), a, b, i)
    case AluImm(op, d, a, k) =>
      if op.IsShift() then PackDAFL(0x2e, d, a, ShiftCode(op), k) else PackDAK(ImmOpcode(op), d, a, k)
    case Mfspr(d, a, k) => PackDAK(0x2d, d, a, k)
    case Mtspr(a, b, k) => PackABK(0x30, a, b, k)
    case CompareImm(c, a, i) => PackAI(0x5e0 + CondCode(c), a, i)
    case Alu(op, d, a, b) => PackDABFF(0x38, d, a, b, AluCode(op).0, AluCode(op).1)
    case Compare(c, a, b) => PackAB(0x720 + CondCode(c), a, b)
  }

  // ---------------------------------------------------------------- round trip

  lemma NRoundTrip(w: int, opcode: nat, n: int)
    requires opcode < 0x40 && ValidOffset(n)
    requires w == PackN(opcode, n / 4)
    ensures 0 <= w < 0x1_0000_0000 && w / 0x400_0000 == opcode && FieldN(w) == n
  {
    var m := n / 4 % 0x400_0000;
    assert w == opcode * 0x400_0000 + m;
    assert Wrap(w * 0x40) == m * 0x40;
    assert m == if n >= 0 then n / 4 else n / 4 + 0x400_0000;
  }

  /** A word packed from disjoint fields, and what each division and remainder recovers. */
  lemma Fields(w: int, opcode: nat, d: nat, a: nat, b: nat, low: nat)
    requires opcode < 0x40 && d < 32 && a < 32 && b < 32 && low < 0x800
    requires w == opcode * 0x400_0000 + d * 0x20_0000 + a * 0x1_0000 + b * 0x800 + low
    ensures 0 <= w < 0x1_0000_0000
    ensures w / 0x400_0000 == opcode && w / 0x20_0000 == opcode * 32 + d
    ensures FieldD(w) == d && FieldA(w) == a && FieldB(w) == b
    ensures w % 0x800 == low && FieldK(w) == b * 0x800 + low && FieldSplitK(w) == d * 0x800 + low
  {
    QuotientUnique(w, 0x800, opcode * 0x8000 + d * 0x400 + a * 0x20 + b, low);
    QuotientUnique(w, 0x1_0000, opcode * 0x400 + d * 0x20 + a, b * 0x800 + low);
    QuotientUnique(w, 0x20_0000, opcode * 0x20 + d, a * 0x1_0000 + b * 0x800 + low);
    QuotientUnique(w, 0x400_0000, opcode, d * 0x20_0000 + a * 0x1_0000 + b * 0x800 + low);
  }

  lemma SplitImmediate(k: int)
    ensures k % 0x1_0000 == k % 0x1_0000 / 0x800 * 0x800 + k % 0x800
    ensures k % 0x1_0000 / 0x800 == k / 0x800 % 0x20 < 32
  {
  }

  lemma DAKRoundTrip(w: int, opcode: nat, d: nat, a: nat, k: int)
    requires opcode < 0x40 && d < 32 && a < 32
    requires w == PackDAK(opcode, d, a, k)
    ensures 0 <= w < 0x1_0000_0000
            && w / 0x400_0000 == opcode && FieldD(w) == d && FieldA(w) == a && FieldK(w) == k % 0x1_0000
  {
    hide FieldD, FieldA, FieldB, FieldK, FieldSplitK;
    SplitImmediate(k);
    Fields(w, opcode, d, a, k / 0x800 % 0x20, k % 0x800);
  }

  lemma ABKRoundTrip(w: int, opcode: nat, a: nat, b: nat, k: int)
    requires opcode < 0x40 && a < 32 && b < 32
    requires w == PackABK(opcode, a, b, k)
    ensures 0 <= w < 0x1_0000_0000
            && w / 0x400_0000 == opcode && FieldA(w) == a && FieldB(w) == b && FieldSplitK(w) == k % 0x1_0000
  {
    hide FieldD, FieldA, FieldB, FieldK, FieldSplitK;
    SplitImmediate(k);
    Fields(w, opcode, k / 0x800 % 0x20, a, b, k % 0x800);
  }

  lemma DAFLRoundTrip(w: int, opcode: nat, d: nat, a: nat, f: nat, l: nat)
    requires opcode < 0x40 && d < 32 && a < 32 && f < 4
    requires w == PackDAFL(opcode, d, a, f, l)
    ensures 0 <= w < 0x1_0000_0000
            && w / 0x400_0000 == opcode && FieldD(w) == d && FieldA(w) == a && w / 0x40 % 4 == f && w % 0x20 == l % 0x20
  {
    hide FieldD, FieldA, FieldB;
    Fields(w, opcode, d, a, 0, f * 0x40 + l % 0x40);
    LowDigits(w, f * 0x40 + l % 0x40, f, l % 0x40);
    LowFive(l);
  }

  lemma LowFive(l: nat)
    ensures l % 0x40 % 0x20 == l % 0x20
  {
    QuotientUnique(l, 0x20, 2 * (l / 0x40) + l % 0x40 / 0x20, l % 0x40 % 0x20);
  }

  lemma DABFFRoundTrip(w: int, opcode: nat, d: nat, a: nat, b: nat, f1: nat, f2: nat)
    requires opcode < 0x40 && d < 32 && a < 32 && b < 32 && f1 < 16 && f2 < 16
    requires w == PackDABFF(opcode, d, a, b, f1, f2)
    ensures 0 <= w < 0x1_0000_0000
            && w / 0x400_0000 == opcode && FieldD(w) == d && FieldA(w) == a && FieldB(w) == b
            && FieldFF(w) == f1 * 16 + f2
  {
    hide FieldD, FieldA, FieldB;
    Fields(w, opcode, d, a, b, f1 * 0x40 + f2);
    LowDigits(w, f1 * 0x40 + f2, f1, f2);
  }

  /** The two small fields at the bottom of a word. */
  lemma LowDigits(w: nat, low: nat, f: nat, l: nat)
    requires w % 0x800 == low && low == f * 0x40 + l && f < 16 && l < 0x40
    ensures w / 0x40 % 0x10 == f && w / 0x40 % 4 == f % 4 && w % 0x20 == l % 0x20 && w % 0x10 == l % 0x10
  {
    var q := w / 0x800;
    assert w == 0x800 * q + f * 0x40 + l;
    SmallDigits(w, 0x20 * q + f, l);
    QuotientUnique(0x20 * q + f, 0x10, 2 * q, f);
    QuotientUnique(0x20 * q + f, 4, 8 * q + f / 4, f % 4);
  }

  lemma SmallDigits(w: nat, h: nat, l: nat)
    requires w == 0x40 * h + l && l < 0x40
    ensures w / 0x40 == h && w % 0x20 == l % 0x20 && w % 0x10 == l % 0x10
  {
    QuotientUnique(w, 0x40, h, l);
    LowRest(w, h, l, 0x20, 2);
    LowRest(w, h, l, 0x10, 4);
  }

  lemma LowRest(w: nat, h: nat, l: nat, d: nat, n: nat)
    requires w == 0x40 * h + l && d > 0 && d * n == 0x40
    ensures w % d == l % d
  {
    assert l == d * (l / d) + l % d;
    assert d * (n * h) == 0x40 * h;
    QuotientUnique(w, d, n * h + l / d, l % d);
  }

  lemma AIRoundTrip(w: int, opcode: nat, a: nat, i: int)
    requires opcode < 0x800 && a < 32
    requires w == PackAI(opcode, a, i)
    ensures 0 <= w < 0x1_0000_0000
            && w / 0x20_0000 == opcode && w / 0x400_0000 == opcode / 0x20 && FieldA(w) == a && FieldK(w) == i % 0x1_0000
  {
    hide FieldD, FieldA, FieldB, FieldK, FieldSplitK;
    SplitImmediate(i);
    Fields(w, opcode / 0x20, opcode % 0x20, a, i / 0x800 % 0x20, i % 0x800);
  }

  lemma ABRoundTrip(w: int, opcode: nat, a: nat, b: nat)
    requires opcode < 0x800 && a < 32 && b < 32
    requires w == PackAB(opcode, a, b)
    ensures 0 <= w < 0x1_0000_0000
            && w / 0x20_0000 == opcode && w / 0x400_0000 == opcode / 0x20 && FieldA(w) == a && FieldB(w) == b
  {
    Fields(w, opcode / 0x20, opcode % 0x20, a, b, 0);
  }

  lemma ImmediateRoundTrip(i: int)
    requires -0x8000 <= i < 0x8000
    ensures Signed16(i % 0x1_0000) == i
  {
  }

  lemma AluCodeRoundTrip(op: AluOp)
    ensures AluCode(op).0 < 16 && AluCode(op).1 < 16
    ensures DecodeAlu(AluCode(op).0 * 16 + AluCode(op).1) == [op]
  {
  }

  lemma CondCodeRoundTrip(c: Cond)
    ensures CondCode(c) < 16 && DecodeCond(CondCode(c)) == [c]
  {
  }

  /** The fields of a word that make it an encoding of an instruction. */
  predicate HasFields(w: uint32, x: Instr) {
    var opcode := w / 0x400_0000;
    match x
    case Jump(n) => opcode == 0x00 && FieldN(w) == n
    case JumpLink(n) => opcode == 0x01 && FieldN(w) == n
    case Branch(onFlag, n) => opcode == (if onFlag then 0x04 else 0x03) && FieldN(w) == n
    case Nop(k) => opcode == 0x05 && FieldK(w) == k
    case MovHi(d, k) => opcode == 0x06 && FieldD(w) == d && FieldK(w) == k
    case Sys(k) => opcode == 0x08 && w / 0x1_0000 == 0x2000 && FieldK(w) == k
    case Trap(k) => opcode == 0x08 && w / 0x1_0000 == 0x2100 && FieldK(w) == k
    case Rfe => opcode == 0x09
    case JumpReg(b) => opcode == 0x11 && FieldB(w) == b
    case JumpLinkReg(b) => opcode == 0x12 && FieldB(w) == b
    case Load(kind, d, a, i) =>
      opcode == LoadOpcode(kind) && FieldD(w) == d && FieldA(w) == a && Signed16(FieldK(w)) == i
    case Store(width, a, b, i) =>
      && width in {1, 2, 4} && opcode == StoreOpcode(width)
      && FieldA(w) == a && FieldB(w) == b && Signed16(FieldSplitK(w)) == i
    case AluImm(op, d, a, k) =>
      && opcode == ImmOpcode(op) && FieldD(w) == d && FieldA(w) == a
      && if op.IsShift() then w / 0x40 % 4 == ShiftCode(op) && w % 0x20 == k else FieldK(w) == k
    case Mfspr(d, a, k) => opcode == 0x2d && FieldD(w) == d && FieldA(w) == a && FieldK(w) == k
    case Mtspr(a, b, k) => opcode == 0x30 && FieldA(w) == a && FieldB(w) == b && FieldSplitK(w) == k
    case CompareImm(c, a, i) =>
      opcode == 0x2f && w / 0x20_0000 == 0x5e0 + CondCode(c) && FieldA(w) == a && Signed16(FieldK(w)) == i
    case Alu(op, d, a, b) =>
      && opcode == 0x38 && FieldFF(w) == AluCode(op).0 * 16 + AluCode(op).1
      && FieldD(w) == d && FieldA(w) == a && FieldB(w) == b
    case Compare(c, a, b) => opcode == 0x39 && w / 0x20_0000 == 0x720 + CondCode(c) && FieldA(w) == a && FieldB(w) == b
    case Illegal => false
  }

  lemma DecodeFields(w: uint32, x: Instr)
    requires HasFields(w, x)
    ensures Decode(w) == x
  {
    hide FieldN, FieldD, FieldA, FieldB, FieldK, FieldSplitK, FieldFF, Signed16, DecodeAlu, DecodeCond, CondCode,
         AluCode;
    match x
    case Alu(op, _, _, _) => AluCodeRoundTrip(op);
    case Compare(c, _, _) => CondCodeRoundTrip(c);
    case CompareImm(c, _, _) => CondCodeRoundTrip(c);
    case _ =>
  }

  // One lemma per group of formats: the packed word has its fields.

  lemma JumpFields(x: Instr, w: uint32)
    requires Encodable(x) && w == Encode(x) && (x.Jump? || x.JumpLink? || x.Branch?)
    ensures HasFields(w, x)
  {
    match x
    case Jump(n) => NRoundTrip(w, 0x0, n);
    case JumpLink(n) => NRoundTrip(w, 0x1, n);
    case Branch(onFlag, n) => NRoundTrip(w, if onFlag then 0x4 else 0x3, n);
  }

  lemma ConstantFields(x: Instr, w: uint32)
    requires Encodable(x) && w == Encode(x) && (x.Nop? || x.MovHi? || x.Sys? || x.Trap?)
    ensures HasFields(w, x)
  {
    hide FieldD, FieldA, FieldB, FieldK, FieldSplitK;
    SplitImmediate(x.k);
    match x
    case Nop(k) => Fields(w, 0x5, 8, 0, k / 0x800, k % 0x800);
    case MovHi(d, k) => Fields(w, 0x6, d, 0, k / 0x800, k % 0x800);
    case Sys(k) => Fields(w, 0x8, 0, 0, k / 0x800, k % 0x800); QuotientUnique(w, 0x1_0000, 0x2000, k);
    case Trap(k) => Fields(w, 0x8, 8, 0, k / 0x800, k % 0x800); QuotientUnique(w, 0x1_0000, 0x2100, k);
  }

  lemma ReturnFields(x: Instr, w: uint32)
    requires Encodable(x) && w == Encode(x) && (x.Rfe? || x.JumpReg? || x.JumpLinkReg?)
    ensures HasFields(w, x)
  {
    hide FieldD, FieldA, FieldB, FieldK, FieldSplitK;
    match x
    case Rfe => Fields(w, 0x9, 0, 0, 0, 0);
    case JumpReg(b) => Fields(w, 0x11, 0, 0, b, 0);
    case JumpLinkReg(b) => Fields(w, 0x12, 0, 0, b, 0);
  }

  lemma MemoryFields(x: Instr, w: uint32)
    requires Encodable(x) && w == Encode(x) && (x.Load? || x.Store?)
    ensures HasFields(w, x)
  {
    hide FieldD, FieldA, FieldB, FieldK, FieldSplitK, Signed16, PackDAK, PackABK;
    ImmediateRoundTrip(x.i);
    match x
    case Load(kind, d, a, i) => DAKRoundTrip(w, LoadOpcode(kind), d, a, i);
    case Store(width, a, b, i) => ABKRoundTrip(w, StoreOpcode(width), a, b, i);
  }

  lemma ImmediateFields(x: Instr, w: uint32)
    requires Encodable(x) && w == Encode(x) && x.AluImm?
    ensures HasFields(w, x)
  {
    hide FieldD, FieldA, FieldB, FieldK, FieldSplitK, PackDAK, PackDAFL;
    var AluImm(op, d, a, k) := x;
    if op.IsShift() {
      DAFLRoundTrip(w, 0x2e, d, a, ShiftCode(op), k);
    } else {
      DAKRoundTrip(w, ImmOpcode(op), d, a, k);
    }
  }

  lemma SpecialFields(x: Instr, w: uint32)
    requires Encodable(x) && w == Encode(x) && (x.Mfspr? || x.Mtspr?)
    ensures HasFields(w, x)
  {
    hide FieldD, FieldA, FieldB, FieldK, FieldSplitK, PackDAK, PackABK;
    match x
    case Mfspr(d, a, k) => DAKRoundTrip(w, 0x2d, d, a, k);
    case Mtspr(a, b, k) => ABKRoundTrip(w, 0x30, a, b, k);
  }

  lemma CompareFields(x: Instr, w: uint32)
    requires Encodable(x) && w == Encode(x) && (x.CompareImm? || x.Compare?)
    ensures HasFields(w, x)
  {
    hide FieldD, FieldA, FieldB, FieldK, FieldSplitK, Signed16, PackAI, PackAB;
    CondCodeRoundTrip(x.cond);
    match x
    case CompareImm(c, a, i) =>
      ImmediateRoundTrip(i);
      AIRoundTrip(w, 0x5e0 + CondCode(c), a, i);
    case Compare(c, a, b) =>
      ABRoundTrip(w, 0x720 + CondCode(c), a, b);
  }

  lemma RegisterFields(x: Instr, w: uint32)
    requires Encodable(x) && w == Encode(x) && x.Alu?
    ensures HasFields(w, x)
  {
    hide FieldD, FieldA, FieldB, FieldFF, PackDABFF;
    AluCodeRoundTrip(x.op);
    DABFFRoundTrip(w, 0x38, x.d, x.a, x.b, AluCode(x.op).0, AluCode(x.op).1);
  }

  /** Assembling then decoding is the identity on every mnemonic with in-range operands. */
  lemma DecodeEncode(x: Instr, w: uint32)
    requires Encodable(x) && w == Encode(x)
    ensures Decode(w) == x
  {
    hide Decode, HasFields, Encode;
    match x {
    case Jump(_) => JumpFields(x, w);
    case JumpLink(_) => JumpFields(x, w);
    case Branch(_, _) => JumpFields(x, w);
    case Load(_, _, _, _) => MemoryFields(x, w);
    case Store(_, _, _, _) => MemoryFields(x, w);
    case AluImm(_, _, _, _) => ImmediateFields(x, w);
    case Mfspr(_, _, _) => SpecialFields(x, w);
    case Mtspr(_, _, _) => SpecialFields(x, w);
    case CompareImm(_, _, _) => CompareFields(x, w);
    case Compare(_, _, _) => CompareFields(x, w);
    case Alu(_, _, _, _) => RegisterFields(x, w);
    case Rfe => ReturnFields(x, w);
    case JumpReg(_) => ReturnFields(x, w);
    case JumpLinkReg(_) => ReturnFields(x, w);
    case _ => ConstantFields(x, w);
    }
    DecodeFields(w, x);
  }

  /** In-range operands survive the masks. */
  lemma MaskedSame(x: Instr)
    requires Encodable(x)
    ensures Assemblable(x) && Masked(x) == x
  {
    hide MaskedOffset;
    if x.Jump? || x.JumpLink? || x.Branch? { OffsetSame(x.offset); }
  }

  lemma OffsetSame(n: int)
    requires ValidOffset(n)
    ensures MaskedOffset(n) == n
  {
    var q := n / 4;
    assert n == 4 * q;
    QuotientUnique(q, 0x400_0000, if q >= 0 then 0 else -1, if q >= 0 then q else q + 0x400_0000);
  }

  lemma OffsetMasked(n: int)
    ensures ValidOffset(MaskedOffset(n)) && MaskedOffset(n) / 4 % 0x400_0000 == n / 4 % 0x400_0000
  {
    var m := n / 4 % 0x400_0000;
    if m >= 0x200_0000 {
      QuotientUnique(m - 0x400_0000, 0x400_0000, -1, m);
    } else {
      QuotientUnique(m, 0x400_0000, 0, m);
    }
  }

  /** Masking before encoding changes nothing, but for the unused bit of a shift amount. */
  lemma EncodeMasked(x: Instr)
    requires Assemblable(x) && !(x.AluImm? && x.imm.IsShift())
    ensures Encodable(Masked(x)) && Assemblable(Masked(x)) && Encode(Masked(x)) == Encode(x)
  {
    hide MaskedOffset, ValidOffset, PackN, PackB, PackDAK, PackABK, PackAI, PackDABFF, PackAB;
    match x
    case Jump(n) => MaskN(0x0, n);
    case JumpLink(n) => MaskN(0x1, n);
    case Branch(onFlag, n) => MaskN(if onFlag then 0x4 else 0x3, n);
    case JumpReg(b) => MaskB(0x11, b);
    case JumpLinkReg(b) => MaskB(0x12, b);
    case Load(kind, d, a, i) => MaskDAK(LoadOpcode(kind), d, a, i);
    case Store(width, a, b, i) => MaskABK(StoreOpcode(width), a, b, i);
    case AluImm(op, d, a, k) => MaskDAK(ImmOpcode(op), d, a, k);
    case Mfspr(d, a, k) => MaskDAK(0x2d, d, a, k);
    case Mtspr(a, b, k) => MaskABK(0x30, a, b, k);
    case CompareImm(c, a, i) => MaskAI(0x5e0 + CondCode(c), a, i);
    case Alu(op, d, a, b) => MaskDABFF(0x38, d, a, b, AluCode(op).0, AluCode(op).1);
    case Compare(c, a, b) => MaskAB(0x720 + CondCode(c), a, b);
    case _ =>
  }

  // One lemma per format: packing masks already.

  lemma MaskN(opcode: nat, n: int)
    ensures ValidOffset(MaskedOffset(n)) && MaskedOffset(n) % 4 == 0
    ensures PackN(opcode, MaskedOffset(n) / 4) == PackN(opcode, n / 4)
  {
    OffsetMasked(n);
    hide MaskedOffset;
  }

  lemma MaskB(opcode: nat, b: nat)
    ensures PackB(opcode, b % 0x20) == PackB(opcode, b)
  {
  }

  lemma MaskDAK(opcode: nat, d: nat, a: nat, k: int)
    ensures PackDAK(opcode, d % 0x20, a % 0x20, k) == PackDAK(opcode, d, a, k)
  {
  }

  lemma MaskABK(opcode: nat, a: nat, b: nat, k: int)
    ensures PackABK(opcode, a % 0x20, b % 0x20, k) == PackABK(opcode, a, b, k)
  {
  }

  lemma MaskAI(opcode: nat, a: nat, i: int)
    ensures PackAI(opcode, a % 0x20, i) == PackAI(opcode, a, i)
  {
  }

  lemma MaskDABFF(opcode: nat, d: nat, a: nat, b: nat, f1: nat, f2: nat)
    ensures PackDABFF(opcode, d % 0x20, a % 0x20, b % 0x20, f1, f2) == PackDABFF(opcode, d, a, b, f1, f2)
  {
  }

  lemma MaskAB(opcode: nat, a: nat, b: nat)
    ensures PackAB(opcode, a % 0x20, b % 0x20) == PackAB(opcode, a, b)
  {
  }

  /** Assembling then decoding, whatever the operands: the instruction that the masks leave. */
  lemma DecodeEncodeMasked(x: Instr, w: uint32)
    requires Assemblable(x) && w == Encode(x)
    ensures Decode(w) == Masked(x)
  {
    hide Decode;
    if x.AluImm? && x.imm.IsShift() {
      ShiftFields(x, w);
      hide HasFields, Encode;
      DecodeFields(w, Masked(x));
    } else {
      EncodeMasked(x);
      hide HasFields, Encode;
      DecodeEncode(Masked(x), w);
    }
  }

  lemma ShiftFields(x: Instr, w: uint32)
    requires x.AluImm? && x.imm.IsShift() && w == Encode(x)
    ensures HasFields(w, Masked(x))
  {
    hide FieldD, FieldA, FieldB, FieldK, FieldSplitK, PackDAK, PackDAFL;
    MaskShift(x.d, x.a, ShiftCode(x.imm), x.k);
    DAFLRoundTrip(w, 0x2e, x.d % 0x20, x.a % 0x20, ShiftCode(x.imm), x.k);
  }

  lemma MaskShift(d: nat, a: nat, f: nat, l: nat)
    ensures PackDAFL(0x2e, d % 0x20, a % 0x20, f, l) == PackDAFL(0x2e, d, a, f, l)
  {
  }

  /** Every decoded register is one of the 32, so the register file is never left. */
  lemma DecodedFields(w: uint32)
    ensures Decode(w) != Illegal ==> Encodable(Decode(w))
  {
    hide FieldD, FieldA, FieldB, FieldK, FieldSplitK, FieldN, Signed16, ValidOffset;
    NField(w);
    FieldRanges(w);
  }

  lemma FieldRanges(w: uint32)
    ensures FieldD(w) < 32 && FieldA(w) < 32 && FieldB(w) < 32 && w % 0x20 < 32
    ensures -0x8000 <= Signed16(FieldK(w)) < 0x8000 && -0x8000 <= Signed16(FieldSplitK(w)) < 0x8000
  {
  }

  lemma NField(w: uint32)
    ensures ValidOffset(FieldN(w))
  {
    assert w * 0x40 % 0x1_0000_0000 % 0x40 == 0;
  }

  // ---------------------------------------------------------------- arithmetic

  function ShiftLeft(x: uint32, n: nat): uint32 { Wrap(x * Pow2(n)) }

  function ShiftRight(x: uint32, n: nat): uint32 {
    QuotientBound(x, Pow2(n));
    x / Pow2(n)
  }

  /** Arithmetic right shift: the floor of the signed value divided by 2^n. */
  function ShiftRightSigned(x: uint32, n: nat): uint32 { Wrap(Signed(x) / Pow2(n)) }

  lemma QuotientBound(x: nat, p: nat)
    requires p >= 1
    ensures 0 <= x / p <= x
  {
    var q := x / p;
    assert x == p * q + x % p;
    if q > x { MulMono(q, 1, p); }
  }

  /** C++ division: truncation toward zero. */
  function Truncated(x: int, y: int): int
    requires y != 0
  {
    var q := (if x < 0 then -x else x) / (if y < 0 then -y else y);
    if (x < 0) == (y < 0) then q else -q
  }

  function AluValue(op: AluOp, x: uint32, y: uint32): uint32 {
    match op
    case Add => Wrap(x + y)
    case Sub => Wrap(x - y)
    case And => Bitwise32(AndBits, x, y)
    case Or => Bitwise32(OrBits, x, y)
    case Xor => Bitwise32(XorBits, x, y)
    case Sll => ShiftLeft(x, y % 0x20)
    case Srl => ShiftRight(x, y % 0x20)
    case Sra => ShiftRightSigned(x, y % 0x20)
    case Ff1 => FirstOneBound(x); FirstOne(x)
    case Fl1 => FirstOneBound(x); LastOne(x)
    case Mul => Wrap(Signed(x) * Signed(y))
    case Div => if y == 0 then 0 else Wrap(Truncated(Signed(x), Signed(y)))
    case Divu => if y == 0 then 0 else (QuotientBound(x, y); x / y)
  }

  lemma {:induction false} FirstOneBound(x: nat)
    ensures FirstOne(x) <= x && LastOne(x) <= x
  {
    if x > 1 { FirstOneBound(x / 2); }
    assert LastOne(0) == 0 && FirstOne(0) == 0;
  }

  /** The one signed quotient that does not fit 32 bits. */
  predicate DivisionOverflows(x: uint32, y: uint32) { x == 0x8000_0000 && y == 0xffff_ffff }

  /** The signed product does not fit 32 bits. */
  predicate MultiplicationOverflows(x: uint32, y: uint32) {
    !(-0x8000_0000 <= Signed(x) * Signed(y) < 0x8000_0000)
  }

  /** The operation overflows a signed integer, which C++ leaves undefined. */
  predicate Overflows(op: AluOp, x: uint32, y: uint32) {
    (op == Div && DivisionOverflows(x, y)) || (op == Mul && MultiplicationOverflows(x, y))
  }

  function ImmOperand(op: ImmOp, k: uint16): uint32 {
    if op == Addi || op == Xori then SignExtend16(k) else k
  }

  function ImmToAlu(op: ImmOp): AluOp {
    match op
    case Addi => Add
    case Andi => And
    case Ori => Or
    case Xori => Xor
    case Slli => Sll
    case Srli => Srl
    case Srai => Sra
  }

  predicate Holds(c: Cond, x: uint32, y: uint32) {
    match c
    case Eq => x == y
    case Ne => x != y
    case Gtu => x > y
    case Geu => x >= y
    case Ltu => x < y
    case Leu => x <= y
    case Gts => Signed(x) > Signed(y)
    case Ges => Signed(x) >= Signed(y)
    case Lts => Signed(x) < Signed(y)
    case Les => Signed(x) <= Signed(y)
  }
}
