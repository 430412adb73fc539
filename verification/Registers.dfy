/** The registers that caching does not touch: general and special purpose registers, the
    tick timer and the interrupt controller (simctty/cpu.h, simctty/cpu.cc). */
module Registers {
  import opened Words
  import opened Translation

  // Supervision register bits.
  const SM := 0x1
  const TEE := 0x2
  const IEE := 0x4
  const DME := 0x20
  const IME := 0x40
  const F := 0x200
  const DSX := 0x2000
  const RESET_SR: uint32 := 0x8001   // FO | SM

  const TIMER_PENDING := 0x1000_0000
  const TIMER_PERIOD := 0x1000_0000

  const GPRS := 32

  datatype Regs = Regs(
    gpr: seq<uint32>,
    sr: uint32, epcr: uint32, eear: uint32, esr: uint32,
    picmr: uint32, picsr: uint32, pending: bool,
    ttmr: uint32, ttcr: uint32)
  {
    predicate Valid() { |gpr| == GPRS }

    predicate Supervisor() { Bit(sr, SM) }

    function SetGpr(d: nat, v: uint32): (r: Regs)
      requires Valid() && d < GPRS
      ensures r.Valid()
    {
      this.(gpr := gpr[d := v])
    }

    /** A comparison sets or clears F and nothing else. */
    function Compared(flag: bool): Regs {
      this.(sr := WithFlag(sr, flag))
    }

    /** One tick of the timer; in mode 3 with interrupts enabled a match sets the pending bit. */
    function Ticked(): Regs {
      var r := this.(ttcr := Wrap(ttcr + 1));
      if r.TimerMatches() then r.(ttmr := WithPending(ttmr)) else r
    }

    predicate TimerMatches() {
      ttmr / 0x4000_0000 == 3 && ttcr % TIMER_PERIOD == ttmr % TIMER_PERIOD && Bit(ttmr, 0x2000_0000)
    }

    /** The tick that produces these registers raises the timer exception. */
    predicate TickRaises() {
      TimerMatches() && Bit(sr, TEE)
    }

    /** A pending timer interrupt that is enabled. */
    predicate TimerDue() { Bit(ttmr, TIMER_PENDING) && Bit(sr, TEE) }

    /** Sampling the interrupt lines: a change to a nonzero level arms one delivery. */
    function Sampled(lines: uint32): Regs {
      if lines != picsr then this.(picsr := lines, pending := lines != 0) else this
    }

    predicate InterruptDue() {
      Bit(sr, IEE) && pending && Bitwise32(AndBits, picsr, picmr) != 0
    }
  }

  function WithFlag(sr: uint32, flag: bool): (r: uint32)
    ensures Bit(r, F) == flag
  {
    if flag == Bit(sr, F) then sr else if flag then sr + F else sr - F
  }

  /** Changing F leaves every other bit of SR alone. */
  lemma FlagOnly(sr: uint32, flag: bool)
    ensures var r := WithFlag(sr, flag);
            && r % F == sr % F && r / (2 * F) == sr / (2 * F)
            && Bit(r, SM) == Bit(sr, SM) && Bit(r, TEE) == Bit(sr, TEE) && Bit(r, IEE) == Bit(sr, IEE)
            && Bit(r, DME) == Bit(sr, DME) && Bit(r, IME) == Bit(sr, IME)
  {
    FlagRest(sr, flag);
    hide Bit, WithFlag;
    LowBits(WithFlag(sr, flag));
    LowBits(sr);
  }

  lemma FlagRest(sr: uint32, flag: bool)
    ensures WithFlag(sr, flag) % F == sr % F && WithFlag(sr, flag) / (2 * F) == sr / (2 * F)
  {
    var q, p, r := sr / (2 * F), sr / F % 2, sr % F;
    QuotientUnique(sr, F, 2 * q + p, r);
    var p' := if flag then 1 else 0;
    assert WithFlag(sr, flag) == 2 * F * q + F * p' + r;
    QuotientUnique(WithFlag(sr, flag), F, 2 * q + p', r);
    QuotientUnique(WithFlag(sr, flag), 2 * F, q, F * p' + r);
  }

  /** The bits below F are those of the remainder. */
  lemma LowBits(x: uint32)
    ensures Bit(x, SM) == Bit(x % F, SM) && Bit(x, TEE) == Bit(x % F, TEE) && Bit(x, IEE) == Bit(x % F, IEE)
    ensures Bit(x, DME) == Bit(x % F, DME) && Bit(x, IME) == Bit(x % F, IME)
  {
    LowBit(x, SM, 0x100);
    LowBit(x, TEE, 0x80);
    LowBit(x, IEE, 0x40);
    LowBit(x, DME, 8);
    LowBit(x, IME, 4);
  }

  lemma LowBit(x: uint32, w: int, h: nat)
    requires w > 0 && w * (2 * h) == F
    ensures Bit(x, w) == Bit(x % F, w)
  {
    var q, r := x / F, x % F;
    calc {
      F * q;
      w * (2 * h) * q;
      { MulAssoc(w, 2 * h, q); }
      w * (2 * h * q);
    }
    assert r == w * (r / w) + r % w;
    assert w * (2 * h * q + r / w) == w * (2 * h * q) + w * (r / w);
    QuotientUnique(x, w, 2 * h * q + r / w, r % w);
    MulAssoc(2, h, q);
    EvenPlus(h * q, r / w);
  }

  lemma EvenPlus(m: int, n: int)
    ensures (2 * m + n) % 2 == n % 2
  {
  }

  function WithPending(ttmr: uint32): uint32 {
    if Bit(ttmr, TIMER_PENDING) then ttmr else ttmr + TIMER_PENDING
  }

  function WithDsx(sr: uint32): uint32 {
    if Bit(sr, DSX) then sr else sr + DSX
  }

  // ---------------------------------------------------------------- special register addresses

  datatype Spr =
    | SrReg | EpcrReg | EearReg | EsrReg
    | DtlbReg(index: nat) | ItlbReg(index: nat)
    | PicmrReg | PicsrReg | TtmrReg | TtcrReg
    | ConfigReg(index: nat)   // fixed on read, ignored on write
    | NoReg                   // zero on read, ignored on write

  /** Group and index of a 16-bit special register address. */
  function SprAt(address: uint16): Spr {
    var group, index := address / 0x800, address % 0x800;
    match group
    case 0 =>
      if index == 17 then SrReg else if index == 32 then EpcrReg else if index == 48 then EearReg
      else if index == 64 then EsrReg else ConfigReg(index)
    case 1 => DtlbReg(index)
    case 2 => ItlbReg(index)
    case 9 => if index == 0 then PicmrReg else if index == 2 then PicsrReg else NoReg
    case 10 => if index == 0 then TtmrReg else if index == 1 then TtcrReg else NoReg
    case _ => NoReg
  }

  function Config(index: nat): uint32 {
    match index
    case 0 => 0x1000_0040   // VR
    case 1 => 0x619         // UPR
    case 2 => 0x820         // CPUCFGR
    case 3 => 0x18          // DMMUCFGR
    case 4 => 0x18          // IMMUCFGR
    case 10 => 0x100_0000   // AVR
    case _ => 0
  }

  /** Reading a special register; everything reads as zero while SR is zero. None where the
      source ends the process. */
  function ReadSpr(r: Regs, itlb: Tlb, dtlb: Tlb, address: uint16): Option<uint32>
    requires itlb.Valid() && dtlb.Valid()
  {
    if r.sr == 0 then Some(0)
    else match SprAt(address)
      case SrReg => Some(r.sr)
      case EpcrReg => Some(r.epcr)
      case EearReg => Some(r.eear)
      case EsrReg => Some(r.esr)
      case DtlbReg(index) => dtlb.Read(index)
      case ItlbReg(index) => itlb.Read(index)
      case PicmrReg => Some(r.picmr)
      case PicsrReg => Some(r.picsr)
      case TtmrReg => Some(r.ttmr)
      case TtcrReg => Some(r.ttcr)
      case ConfigReg(index) => Some(Config(index))
      case NoReg => Some(0)
  }

  /** The special register address an instruction forms: a register or'ed with a constant. */
  function SprAddress(base: uint32, k: uint16): uint16 {
    Bitwise32(OrBits, base, k) % 0x1_0000
  }

  /** The outcome of an instruction, a cycle or a run. */
  datatype Step<S> =
    | Continue(s: S)
    | Stopped(s: S, ok: bool)   // the run returns early
    | Stuck                     // undefined in C++, or the process ends
}
