/** The CPU object (simctty/cpu.cc), updating its registers in place, branch for branch. Every
    method is proved against the state functions of module Machine. */
module Cpu {
  import opened Words
  import opened Exceptions
  import opened Memory
  import opened Bus
  import opened Translation
  import opened Mmu
  import opened Isa
  import opened Registers
  import opened Machine

  /** Whether (m, ok) is what a step stands for: the state left behind and the value returned. */
  predicate Outcome(s: Step<Machine>, m: Machine, ok: bool) {
    match s
    case Continue(x) => ok && x == m
    case Stopped(x, o) => ok == o && x == m
    case Stuck => false
  }

  /** The four pc-relative jumps by opcode. */
  function JumpInstr(opcode: nat, n: int): Instr {
    if opcode == 0 then Jump(n) else if opcode == 1 then JumpLink(n) else Branch(opcode == 4, n)
  }

  // ---------------------------------------------------------------- bit scans

  /** l.ff1: the lowest set bit, scanning upwards. */
  method FindFirstOne(x: uint32) returns (value: uint32)
    ensures value == FirstOne(x)
  {
    value := 0;
    var i := 0;
    ghost var rest: nat := x;
    assert Pow2(0) == 1;
    hide Pow2;
    while i < 32
      invariant 0 <= i <= 32 && rest == x / Pow2(i)
      invariant x != 0 ==> rest != 0 && FirstOne(x) == i + FirstOne(rest)
    {
      if Bit(x, Pow2(i)) {
        return i + 1;
      }
      Halve(x, i);
      i, rest := i + 1, rest / 2;
    }
    Pow2Word();
  }

  lemma Halve(x: nat, i: nat)
    ensures x / Pow2(i) / 2 == x / Pow2(i + 1)
  {
    DivDiv(x, Pow2(i), 2);
  }

  /** l.fl1: the highest set bit, scanning downwards. */
  method FindLastOne(x: uint32) returns (value: uint32)
    ensures value == LastOne(x)
  {
    value := 0;
    Pow2Word();
    var i := 31;
    while i >= 0
      invariant -1 <= i <= 31 && x < Pow2(i + 1)
    {
      QuotientOfPower(x, i);
      if Bit(x, Pow2(i)) {
        LastOneUnique(x, i + 1);
        return i + 1;
      }
      i := i - 1;
    }
  }

  lemma QuotientOfPower(x: nat, i: nat)
    requires x < Pow2(i + 1)
    ensures Bit(x, Pow2(i)) <==> x >= Pow2(i)
  {
    if x >= Pow2(i) {
      QuotientUnique(x, Pow2(i), 1, x - Pow2(i));
    } else {
      QuotientUnique(x, Pow2(i), 0, x);
    }
  }

  lemma {:induction false} LastOneUnique(x: nat, r: nat)
    requires r > 0 && Pow2(r - 1) <= x < Pow2(r)
    ensures LastOne(x) == r
  {
    if r == 1 {
      assert LastOne(0) == 0;
    } else {
      LastOneUnique(x / 2, r - 1);
    }
  }

  // ---------------------------------------------------------------- the processor

  lemma OtherOpcodes(m: Machine, w: uint32)
    requires m.Valid()
    requires w / 0x400_0000 !in {0x00, 0x01, 0x03, 0x04, 0x05, 0x06, 0x08, 0x09, 0x11, 0x12, 0x21, 0x23, 0x24, 0x25,
                                 0x26, 0x27, 0x29, 0x2a, 0x2b, 0x2d, 0x2e, 0x2f, 0x30, 0x35, 0x36, 0x37, 0x38, 0x39}
    ensures Decode(w) == Illegal && m.Exec(Illegal) == m.ControlInstr(Illegal)
  {
    hide FieldD, FieldA, FieldB, FieldK, FieldSplitK, FieldFF, FieldN, Signed16;
  }

  /** The two compare opcodes, by the comparison that the word selects. */
  lemma CompareDecodes(m: Machine, w: uint32, opcode: nat)
    requires m.Valid() && opcode == w / 0x400_0000 && opcode in {0x2f, 0x39}
    ensures FieldA(w) < 32 && FieldB(w) < 32 && |m.r.gpr| == 32 && Decoded(Decode(w))
    ensures var code := w / 0x20_0000 - (if opcode == 0x2f then 0x5e0 else 0x720);
            && code >= 0
            && var c := DecodeCond(code);
               if c == [] then m.Exec(Decode(w)) == m.ControlInstr(Illegal)
               else m.Exec(Decode(w)) == m.CompareInstr(c[0], m.r.gpr[FieldA(w)],
                      if opcode == 0x2f then Wrap(Signed16(FieldK(w))) else m.r.gpr[FieldB(w)])
  {
    FieldRanges(w);
    DecodeDecoded(w);
    hide FieldA, FieldB, FieldK, FieldD, FieldSplitK, FieldFF, FieldN, Signed16, DecodeCond, DecodeAlu,
         Machine.CompareInstr, Machine.ControlInstr, Machine.LoadInstr, Machine.StoreInstr, Machine.AluInstr,
         Machine.ReadSprInstr, Machine.WriteSprInstr, Machine.Finish, Wrap, Bit;
  }

  class Cpu {
    const bus: Bus
    const immu: Mmu
    const dmmu: Mmu
    const reg: array<uint32>
    var pc: uint32
    var sr: uint32
    var epcr: uint32
    var eear: uint32
    var esr: uint32
    var picmr: uint32
    var picsr: uint32
    var pendingInterrupt: bool
    var ttmr: uint32
    var ttcr: uint32
    var inDelaySlot: bool
    var delayedNextPc: uint32
    var authedPage: uint32
    var authedPhy: uint32

    /** The objects are the CPU's own, and its page cache points into RAM. */
    ghost predicate Wired()
      reads this, immu, dmmu
    {
      && bus.Valid() && immu.Valid() && dmmu.Valid() && immu.bus == bus && dmmu.bus == bus
      && immu.kind == InstructionMmu && dmmu.kind == DataMmu
      && reg.Length == GPRS
      && immu != dmmu
      && reg != immu.matchReg && reg != immu.translateReg && reg != dmmu.matchReg && reg != dmmu.translateReg
      && immu.matchReg != dmmu.matchReg && immu.matchReg != dmmu.translateReg
      && immu.translateReg != dmmu.matchReg && immu.translateReg != dmmu.translateReg
      && (reg as object) != bus.ram.cells
      && CacheRegisters(authedPage, authedPhy)
    }

    ghost predicate Valid()
      reads this, immu, dmmu
      ensures Valid() ==> Wired()
    {
      Wired() && immu.enabled == Bit(sr, IME) && dmmu.enabled == Bit(sr, DME)
    }

    ghost function State(): (m: Machine)
      requires Wired()
      reads this, reg, immu, immu.matchReg, immu.translateReg, dmmu, dmmu.matchReg, dmmu.translateReg, bus.ram.cells,
            bus.uart
      ensures Valid() ==> m.Valid()
    {
      Machine(Regs(reg[..], sr, epcr, eear, esr, picmr, picsr, pendingInterrupt, ttmr, ttcr),
              pc, inDelaySlot, delayedNextPc,
              CacheOf(authedPage, authedPhy),
              immu.State(), dmmu.State(), bus.State())
    }

    constructor (bus: Bus)
      requires bus.Valid()
      ensures Valid() && this.bus == bus && bus.State() == old(bus.State())
      ensures fresh(immu) && fresh(dmmu) && fresh(reg)
      ensures exists m: Machine :: m.Valid() && m.bus == bus.State() && State() == m.Reset()
    {
      this.bus := bus;
      immu := new Mmu(bus, InstructionMmu);
      dmmu := new Mmu(bus, DataMmu);
      reg := new uint32[GPRS];
      sr, authedPage, authedPhy := 0, 1, 0;
      new;
      ghost var m := State();
      Reset();
      assert State() == m.Reset();
    }

    method ClearRegisters()
      requires Valid()
      modifies reg
      ensures Valid() && State() == old(State()).(r := old(State()).r.(gpr := seq(GPRS, k => 0)))
    {
      hide Mmu.State, Mmu.Valid, Bus.State, Bus.Valid, CacheRegisters, CacheOf, Bit;
      var i := 0;
      while i < GPRS
        invariant 0 <= i <= GPRS && forall k :: 0 <= k < i ==> reg[k] == 0
      {
        reg[i] := 0;
        i := i + 1;
      }
      assert reg[..] == seq(GPRS, k => 0);
    }

    method Reset()
      requires Valid()
      modifies this, reg, immu, dmmu, immu.matchReg, dmmu.matchReg
      ensures Valid() && State() == old(State()).Reset()
    {
      hide Cpu.State, Cpu.Valid, Cpu.Wired, Bit;
      ClearRegisters();
      SetSupReg(RESET_SR);
      ClearControl();
      ClearExceptions();
      ClearInterrupts();
      ClearTimer();
      ResetMmus();
    }

    method ResetMmus()
      requires Valid()
      modifies immu, dmmu, immu.matchReg, dmmu.matchReg
      ensures Valid()
      ensures var m := old(State());
              State() == m.(
                immu := m.immu.(tlb := m.immu.tlb.(matches := seq(SETS, i => 0)), cache := NoPage),
                dmmu := m.dmmu.(tlb := m.dmmu.tlb.(matches := seq(SETS, i => 0)), cache := NoPage))
    {
      hide Mmu.State, Mmu.Valid, Bus.State, Bus.Valid, CacheRegisters, CacheOf, Bit;
      dmmu.Reset();
      immu.Reset();
    }

    method ClearControl()
      requires Valid()
      modifies this
      ensures Valid() && State() == old(State()).(pc := 0, slot := false, fetch := NoPage)
    {
      hide Mmu.State, Mmu.Valid, Bus.State, Bus.Valid, CacheRegisters, CacheOf, Bit;
      NoCache(authedPhy);
      pc := 0;
      inDelaySlot := false;
      authedPage := 1;
    }

    method ClearExceptions()
      requires Valid()
      modifies this
      ensures Valid() && State() == old(State()).(r := old(State()).r.(epcr := 0, eear := 0, esr := 0))
    {
      hide Mmu.State, Mmu.Valid, Bus.State, Bus.Valid, CacheRegisters, CacheOf, Bit;
      epcr := 0;
      eear := 0;
      esr := 0;
    }

    method ClearInterrupts()
      requires Valid()
      modifies this
      ensures Valid() && State() == old(State()).(r := old(State()).r.(picmr := 0, picsr := 0, pending := false))
    {
      hide Mmu.State, Mmu.Valid, Bus.State, Bus.Valid, CacheRegisters, CacheOf, Bit;
      picmr := 0;
      picsr := 0;
      pendingInterrupt := false;
    }

    method ClearTimer()
      requires Valid()
      modifies this
      ensures Valid() && State() == old(State()).(r := old(State()).r.(ttmr := 0, ttcr := 0))
    {
      hide Mmu.State, Mmu.Valid, Bus.State, Bus.Valid, CacheRegisters, CacheOf, Bit;
      ttmr := 0;
      ttcr := 0;
    }

    // -------------------------------------------------------------- control state

    /** Every write of SR: enables follow it and all page caches empty. */
    method SetSupReg(value: uint32)
      requires Wired()
      modifies this, immu, dmmu
      ensures Valid() && State() == old(State()).SetSr(value)
    {
      hide Mmu.State, Mmu.Valid, Bus.State, Bus.Valid, CacheRegisters, CacheOf, Bit, Wrap, WithDsx, Vector, SetsEear;
      sr := value;
      immu.SetIsEnabled(Bit(sr, IME));
      dmmu.SetIsEnabled(Bit(sr, DME));
      ClearPageCaches();
    }

    method ClearPageCaches()
      requires Valid()
      modifies this`authedPage, immu, dmmu
      ensures Valid()
      ensures var m := old(State());
              State() == m.(fetch := NoPage, immu := m.immu.(cache := NoPage), dmmu := m.dmmu.(cache := NoPage))
    {
      hide Mmu.State, Mmu.Valid, Bus.State, Bus.Valid, CacheRegisters, CacheOf, Bit;
      NoCache(authedPhy);
      immu.ClearFastAuthCache();
      dmmu.ClearFastAuthCache();
      authedPage := 1;
    }

    method ThrowException(e: Exception, ea: uint32)
      requires Valid()
      modifies this, immu, dmmu
      ensures Valid() && State() == old(State()).Throw(e, ea)
    {
      hide Mmu.State, Mmu.Valid, Bus.State, Bus.Valid, CacheRegisters, CacheOf, Bit, Wrap, WithDsx, Vector, SetsEear;
      SaveContext();
      SetSupReg(RESET_SR);
      EnterHandler(e, ea);
    }

    /** ESR takes SR, and an exception in a delay slot is charged to its jump. */
    method SaveContext()
      requires Valid()
      modifies this
      ensures Valid()
      ensures var m := old(State());
              State() == m.(r := m.r.(esr := if m.slot then WithDsx(m.r.sr) else m.r.sr),
                            pc := if m.slot then Wrap(m.pc - 4) else m.pc, slot := false)
    {
      hide Mmu.State, Mmu.Valid, Bus.State, Bus.Valid, CacheRegisters, CacheOf, Bit, Wrap, WithDsx, Vector, SetsEear;
      esr := sr;
      if inDelaySlot {
        esr := WithDsx(esr);
        pc := Wrap(pc - 4);
        inDelaySlot := false;
      }
    }

    method EnterHandler(e: Exception, ea: uint32)
      requires Valid()
      modifies this
      ensures Valid()
      ensures var m := old(State());
              State() == m.(r := m.r.(epcr := m.pc, eear := if SetsEear(e) then ea else m.r.eear), pc := Vector(e))
    {
      hide Mmu.State, Mmu.Valid, Bus.State, Bus.Valid, CacheRegisters, CacheOf, Bit, Wrap, WithDsx, Vector, SetsEear;
      epcr := pc;
      pc := Vector(e);
      if SetsEear(e) {
        eear := ea;
      }
    }

    method IncrementPC()
      requires Valid()
      modifies this
      ensures Valid() && State() == old(State()).IncrementPC()
    {
      hide Mmu.State, Mmu.Valid, Bus.State, Bus.Valid, CacheRegisters, CacheOf, Bit, Wrap, WithDsx, Vector, SetsEear;
      if !inDelaySlot {
        pc := Wrap(pc + 4);
      } else {
        pc := delayedNextPc;
      }
      inDelaySlot := false;
    }

    method Jump(next: uint32)
      requires Valid()
      modifies this
      ensures Valid() && State() == old(State()).JumpTo(next)
    {
      hide Mmu.State, Mmu.Valid, Bus.State, Bus.Valid, CacheRegisters, CacheOf, Bit, Wrap, WithDsx, Vector, SetsEear;
      delayedNextPc := next;
      pc := Wrap(pc + 4);
      inDelaySlot := true;
    }

    method SetReg(d: nat, value: uint32)
      requires Valid() && d < GPRS
      modifies reg
      ensures Valid() && State() == old(State()).SetGpr(d, value)
    {
      hide Mmu.State, Mmu.Valid, Bus.State, Bus.Valid, CacheRegisters, CacheOf, Bit, Wrap, WithDsx, Vector, SetsEear;
      reg[d] := value;
    }

    method SetCompareFlag(flag: bool)
      requires Valid()
      modifies this
      ensures Valid() && State() == old(State()).(r := old(State()).r.Compared(flag))
    {
      hide Mmu.State, Mmu.Valid, Bus.State, Bus.Valid, CacheRegisters, CacheOf, Bit, Wrap, WithDsx, Vector, SetsEear;
      FlagOnly(sr, flag);
      if flag {
        sr := if Bit(sr, F) then sr else sr + F;
      } else {
        sr := if Bit(sr, F) then sr - F else sr;
      }
    }

    // -------------------------------------------------------------- special registers

    method SpReg(address: uint16) returns (value: uint32)
      requires Valid() && ReadSpr(State().r, State().immu.tlb, State().dmmu.tlb, address).Some?
      ensures value == ReadSpr(State().r, State().immu.tlb, State().dmmu.tlb, address).value
    {
      if sr == 0 {
        return 0;
      }
      var group, index := address / 0x800, address % 0x800;
      match group
      case 0 =>
        match index {
          case 17 => return sr;
          case 32 => return epcr;
          case 48 => return eear;
          case 64 => return esr;
          case _ => return Config(index);
        }
      case 1 => value := dmmu.Reg(index);
      case 2 => value := immu.Reg(index);
      case 9 => return if index == 0 then picmr else if index == 2 then picsr else 0;
      case 10 => return if index == 0 then ttmr else if index == 1 then ttcr else 0;
      case _ => return 0;
    }

    method SetSpReg(address: uint16, value: uint32)
      requires Valid() && State().WriteSpr(address, value).Some?
      modifies this, immu, dmmu, immu.matchReg, immu.translateReg, dmmu.matchReg, dmmu.translateReg
      ensures Valid() && State() == old(State()).WriteSpr(address, value).value
    {
      hide Cpu.State, Cpu.Valid, Cpu.Wired, Machine.SetSr, Tlb.Write;
      var group, index := address / 0x800, address % 0x800;
      match group
      case 0 => SetSystemReg(index, value);
      case 1 => SetDataReg(index, value);
      case 2 => SetInstructionReg(index, value);
      case 9 => SetControllerReg(index, value);
      case 10 => SetTimerReg(index, value);
      case _ =>
    }

    /** Group 0: system control and status. */
    method SetSystemReg(index: nat, value: uint32)
      requires Valid() && index < 0x800
      modifies this, immu, dmmu
      ensures Valid()
      ensures State() == var m := old(State());
                         if index == 17 then m.SetSr(value)
                         else if index == 32 then m.(r := m.r.(epcr := value))
                         else if index == 48 then m.(r := m.r.(eear := value))
                         else if index == 64 then m.(r := m.r.(esr := value))
                         else m
    {
      hide Mmu.State, Mmu.Valid, Bus.State, Bus.Valid, CacheRegisters, CacheOf, Bit;
      match index {
        case 17 => SetSupReg(value);
        case 32 => epcr := value;
        case 48 => eear := value;
        case 64 => esr := value;
        case _ =>
      }
    }

    /** Group 1: the data MMU. */
    method SetDataReg(index: nat, value: uint32)
      requires Valid() && State().dmmu.tlb.Write(index, value).Some?
      modifies dmmu, dmmu.matchReg, dmmu.translateReg
      ensures Valid()
      ensures var m := old(State());
              State() == m.(dmmu := m.dmmu.(tlb := m.dmmu.tlb.Write(index, value).value, cache := NoPage))
    {
      hide Mmu.State, Mmu.Valid, Bus.State, Bus.Valid, CacheRegisters, CacheOf, Bit;
      dmmu.SetReg(index, value);
    }

    /** Group 2: the instruction MMU. The fetch cache stays. */
    method SetInstructionReg(index: nat, value: uint32)
      requires Valid() && State().immu.tlb.Write(index, value).Some?
      modifies immu, immu.matchReg, immu.translateReg
      ensures Valid()
      ensures var m := old(State());
              State() == m.(immu := m.immu.(tlb := m.immu.tlb.Write(index, value).value, cache := NoPage))
    {
      hide Mmu.State, Mmu.Valid, Bus.State, Bus.Valid, CacheRegisters, CacheOf, Bit;
      immu.SetReg(index, value);
    }

    /** Group 9: the interrupt controller. */
    method SetControllerReg(index: nat, value: uint32)
      requires Valid()
      modifies this
      ensures Valid()
      ensures State() == var m := old(State());
                         if index == 0 then m.(r := m.r.(picmr := value))
                         else if index == 2 then m.(r := m.r.(picsr := value))
                         else m
    {
      hide Mmu.State, Mmu.Valid, Bus.State, Bus.Valid, CacheRegisters, CacheOf, Bit;
      if index == 0 { picmr := value; } else if index == 2 { picsr := value; }
    }

    /** Group 10: the tick timer. */
    method SetTimerReg(index: nat, value: uint32)
      requires Valid()
      modifies this
      ensures Valid()
      ensures State() == var m := old(State());
                         if index == 0 then m.(r := m.r.(ttmr := value))
                         else if index == 1 then m.(r := m.r.(ttcr := value))
                         else m
    {
      hide Mmu.State, Mmu.Valid, Bus.State, Bus.Valid, CacheRegisters, CacheOf, Bit;
      if index == 0 { ttmr := value; } else if index == 1 { ttcr := value; }
    }

    // -------------------------------------------------------------- memory instructions

    /** The end of every load: fault, or write the register and go on. */
    method FinishLoad(load: LoadKind, d: nat, ea: uint32, value: uint32, signal: Signal)
      requires Valid() && d < GPRS
      modifies this, immu, dmmu, reg
      ensures Valid()
      ensures State() == match signal
                case Some(e) => old(State()).Throw(e, ea)
                case None => old(State()).SetGpr(d, load.Extend(value)).IncrementPC()
    {
      hide Mmu.State, Mmu.Valid, Bus.State, Bus.Valid, Wired, Machine.Throw, LoadKind.Extend, Bit, Wrap;
      if signal.Some? {
        ThrowException(signal.value, ea);
      } else {
        SetReg(d, load.Extend(value));
        IncrementPC();
      }
    }

    /** The access of a load, by the MMU method of its width. */
    method DataLoad(load: LoadKind, ea: uint32) returns (value: uint32, signal: Signal)
      requires Valid()
      requires !State().dmmu.Load(State().bus, load.Width(), ea, State().r.Supervisor()).Undefined?
      modifies dmmu, bus.uart
      ensures Valid()
      ensures var m := old(State());
              var m' := m.(dmmu := m.dmmu.AfterLoad(load.Width(), ea, m.r.Supervisor()));
              match m.dmmu.Load(m.bus, load.Width(), ea, m.r.Supervisor())
              case Undefined => false
              case Fault(e) => signal == Some(e) && State() == m'
              case Value(v, b) => signal == None && value == v && State() == m'.(bus := b)
    {
      hide Mmu.State, Mmu.Valid, Bus.State, Bus.Valid, CacheOf, CacheRegisters, MmuState.Load, MmuState.AfterLoad;
      ghost var m := State();
      BusRepliesValid(m, load.Width(), ea, 0);
      match load {
        case Lwz => value, signal := dmmu.Load32(ea, Bit(sr, SM));
        case Lbz => value, signal := dmmu.Load8(ea, Bit(sr, SM));
        case Lbs => value, signal := dmmu.Load8(ea, Bit(sr, SM));
        case Lhz => value, signal := dmmu.Load16(ea, Bit(sr, SM));
        case Lhs => value, signal := dmmu.Load16(ea, Bit(sr, SM));
      }
    }

    method RunLoad(load: LoadKind, d: nat, ea: uint32)
      requires Valid() && d < GPRS && !State().LoadInstr(load, d, ea).Stuck?
      modifies this, immu, dmmu, reg, bus.uart
      ensures Valid() && Outcome(old(State()).LoadInstr(load, d, ea), State(), true)
    {
      ghost var m := State();
      hide Cpu.State, Cpu.Valid, Machine.Throw, LoadKind.Extend, Wrap, MmuState.Load, MmuState.AfterLoad;
      BusRepliesValid(m, load.Width(), ea, 0);
      var value, signal := DataLoad(load, ea);
      FinishLoad(load, d, ea, value, signal);
    }

    method DataStore(width: nat, ea: uint32, v: uint32) returns (signal: Signal)
      requires Valid() && width in {1, 2, 4}
      requires !State().dmmu.Store(State().bus, width, ea, v, State().r.Supervisor()).Undefined?
      modifies dmmu, bus.uart, bus.ram.cells
      ensures Valid()
      ensures var m := old(State());
              var m' := m.(dmmu := m.dmmu.AfterStore(width, ea, m.r.Supervisor()));
              match m.dmmu.Store(m.bus, width, ea, v, m.r.Supervisor())
              case Undefined => false
              case Fault(e) => signal == Some(e) && State() == m'
              case Value(_, b) => signal == None && State() == m'.(bus := b)
    {
      hide Mmu.State, Mmu.Valid, Bus.State, Bus.Valid, CacheOf, CacheRegisters, MmuState.Store, MmuState.AfterStore;
      ghost var m := State();
      BusRepliesValid(m, width, ea, v);
      StoreTruncates(m.dmmu, m.bus, width, ea, v, m.r.Supervisor());
      if width == 4 {
        signal := dmmu.Store32(ea, v, Bit(sr, SM));
      } else if width == 1 {
        signal := dmmu.Store8(ea, v % 0x100, Bit(sr, SM));
      } else {
        signal := dmmu.Store16(ea, v % 0x1_0000, Bit(sr, SM));
      }
    }

    method RunStore(width: nat, ea: uint32, v: uint32)
      requires Valid() && width in {1, 2, 4} && !State().StoreInstr(width, ea, v).Stuck?
      modifies this, immu, dmmu, bus.uart, bus.ram.cells
      ensures Valid() && Outcome(old(State()).StoreInstr(width, ea, v), State(), true)
    {
      ghost var m := State();
      hide Cpu.State, Cpu.Valid, Machine.Throw, Wrap, MmuState.Store, MmuState.AfterStore;
      BusRepliesValid(m, width, ea, v);
      var signal := DataStore(width, ea, v);
      if signal.Some? {
        ThrowException(signal.value, ea);
      } else {
        IncrementPC();
      }
    }

    // -------------------------------------------------------------- register instructions

    method Finish(d: nat, value: uint32)
      requires Valid() && d < GPRS
      modifies this, reg
      ensures Valid() && Continue(State()) == old(State()).Finish(d, value)
    {
      hide Cpu.State, Cpu.Valid, Cpu.Wired, Wrap;
      SetReg(d, value);
      IncrementPC();
    }

    method RunAlu(op: AluOp, d: nat, x: uint32, y: uint32)
      requires Valid() && d < GPRS && !State().AluInstr(op, d, x, y).Stuck?
      modifies this, reg
      ensures Valid() && Outcome(old(State()).AluInstr(op, d, x, y), State(), true)
    {
      hide Cpu.State, Cpu.Valid, Cpu.Wired, Wrap, Bitwise, FirstOne, LastOne, Pow2, Machine.IncrementPC;
      var value: uint32;
      match op {
        case Add => value := Wrap(x + y);
        case Sub => value := Wrap(x - y);
        case And => value := Bitwise32(AndBits, x, y);
        case Or => value := Bitwise32(OrBits, x, y);
        case Xor => value := Bitwise32(XorBits, x, y);
        case Sll => value := Wrap(x * Pow2(y % 0x20));
        case Ff1 => value := FindFirstOne(x);
        case Srl => value := ShiftRight(x, y % 0x20);
        case Sra => value := Wrap(Signed(x) / Pow2(y % 0x20));
        case Fl1 => value := FindLastOne(x);
        case Mul => value := Wrap(Signed(x) * Signed(y));
        case Div => if y == 0 { value := 0; } else { value := Wrap(Truncated(Signed(x), Signed(y))); }
        case Divu => if y == 0 { value := 0; } else { QuotientBound(x, y); value := x / y; }
      }
      Finish(d, value);
    }

    method RunCompare(c: Cond, x: uint32, y: uint32)
      requires Valid()
      modifies this
      ensures Valid() && Outcome(old(State()).CompareInstr(c, x, y), State(), true)
    {
      hide Cpu.State, Cpu.Valid, Cpu.Wired, WithFlag, Signed, Machine.IncrementPC;
      var flag;
      match c {
        case Eq => flag := x == y;
        case Ne => flag := x != y;
        case Gtu => flag := x > y;
        case Geu => flag := x >= y;
        case Ltu => flag := x < y;
        case Leu => flag := x <= y;
        case Gts => flag := Signed(x) > Signed(y);
        case Ges => flag := Signed(x) >= Signed(y);
        case Lts => flag := Signed(x) < Signed(y);
        case Les => flag := Signed(x) <= Signed(y);
      }
      SetCompareFlag(flag);
      IncrementPC();
    }

    method RunReadSpr(d: nat, address: uint16)
      requires Valid() && d < GPRS && !State().ReadSprInstr(d, address).Stuck?
      modifies this, reg
      ensures Valid() && Outcome(old(State()).ReadSprInstr(d, address), State(), true)
    {
      hide Cpu.State, Cpu.Valid, Cpu.Wired, ReadSpr, Machine.IncrementPC;
      var value := SpReg(address);
      Finish(d, value);
    }

    method RunWriteSpr(address: uint16, value: uint32)
      requires Valid() && !State().WriteSprInstr(address, value).Stuck?
      modifies this, immu, dmmu, immu.matchReg, immu.translateReg, dmmu.matchReg, dmmu.translateReg
      ensures Valid() && Outcome(old(State()).WriteSprInstr(address, value), State(), true)
    {
      SetSpReg(address, value);
      var due := TimerDue();
      hide Cpu.State, Cpu.Valid, Cpu.Wired, Machine.WriteSpr, Machine.IncrementPC, Machine.Throw, Bit;
      if due {
        ThrowException(TickTimerInterrupt, 0);
      } else {
        IncrementPC();
      }
    }

    /** Whether a timer interrupt is pending and enabled. */
    method TimerDue() returns (due: bool)
      requires Valid()
      ensures due == State().r.TimerDue()
    {
      due := Bit(ttmr, TIMER_PENDING) && Bit(sr, TEE);
    }

    // -------------------------------------------------------------- control instructions

    method RunJump(opcode: nat, n: int)
      requires Valid() && opcode in {0x00, 0x01, 0x03, 0x04}
      modifies this, reg
      ensures Valid() && Outcome(old(State()).ControlInstr(JumpInstr(opcode, n)), State(), true)
    {
      ghost var m := State();
      var at, flag := pc, Bit(sr, F);
      assert at == m.pc && flag == Bit(m.r.sr, F);
      hide Cpu.State, Cpu.Valid, Cpu.Wired, Wrap, Bit, Machine.IncrementPC;
      match opcode
      case 0x00 => Jump(Wrap(at + n));
      case 0x01 =>
        SetReg(9, Wrap(at + 8));
        Jump(Wrap(at + n));
      case _ =>
        if flag == (opcode == 4) {
          Jump(Wrap(at + n));
        } else {
          IncrementPC();
        }
    }

    method RunJumpReg(link: bool, b: nat)
      requires Valid() && b < GPRS
      modifies this, reg
      ensures Valid()
      ensures Outcome(old(State()).ControlInstr(if link then JumpLinkReg(b) else JumpReg(b)), State(), true)
    {
      ghost var m := State();
      if link {
        SetReg(9, Wrap(pc + 8));
      }
      var next := reg[b];
      hide Cpu.State, Cpu.Valid, Cpu.Wired, Wrap, Bit, Machine.IncrementPC;
      Jump(next);
    }

    method RunNop(k: uint16) returns (ok: bool)
      requires Valid()
      modifies this
      ensures Valid() && Outcome(old(State()).ControlInstr(Nop(k)), State(), ok)
    {
      hide Cpu.Wired, Mmu.State, Bus.State, Bit, Machine.IncrementPC;
      if Bit(sr, SM) && k == 1 {
        return false;
      }
      IncrementPC();
      return true;
    }

    method RunSys(k: uint16)
      requires Valid()
      modifies this, immu, dmmu
      ensures Valid() && Outcome(old(State()).ControlInstr(Sys(k)), State(), true)
    {
      hide Mmu.State, Mmu.Valid, Bus.State, Bus.Valid, Wrap, Bit, Machine.Throw;
      pc := Wrap(pc + 4);
      ThrowException(SystemCall, 0);
    }

    method RunRfe()
      requires Valid()
      modifies this, immu, dmmu
      ensures Valid() && Outcome(old(State()).ControlInstr(Rfe), State(), true)
    {
      var at, saved := epcr, esr;
      assert at == State().r.epcr && saved == State().r.esr;
      hide Cpu.State, Cpu.Valid, Cpu.Wired, Bit;
      SetPC(at);
      SetSupReg(saved);
      LeaveSlot();
    }

    method LeaveSlot()
      requires Valid()
      modifies this
      ensures Valid() && State() == old(State()).(slot := false)
    {
      hide Mmu.State, Mmu.Valid, Bus.State, Bus.Valid, CacheOf, CacheRegisters, Bit;
      inDelaySlot := false;
    }

    method RunIllegal()
      requires Valid()
      modifies this, immu, dmmu
      ensures Valid() && Outcome(old(State()).ControlInstr(Illegal), State(), true)
    {
      ghost var m := State();
      var at := pc;
      assert at == m.pc;
      hide Cpu.State, Cpu.Valid, Cpu.Wired, Machine.Throw;
      ThrowException(IllegalInstruction, at);
    }

    // -------------------------------------------------------------- decoding

    method Reg(a: nat) returns (value: uint32)
      requires Valid() && a < GPRS
      ensures value == State().r.gpr[a]
    {
      value := reg[a];
    }

    method RunJumpGroup(w: uint32, opcode: nat) returns (ok: bool)
      requires Valid() && opcode == w / 0x400_0000
      requires Decoded(Decode(w)) && !State().Exec(Decode(w)).Stuck?
      requires opcode in {0x00, 0x01, 0x03, 0x04, 0x11, 0x12}
      modifies this, immu, dmmu, reg
      ensures Valid() && Outcome(old(State()).Exec(Decode(w)), State(), ok)
    {
      hide Cpu.State, Cpu.Valid, Cpu.Wired, FieldD, FieldA, FieldB, FieldK, FieldSplitK, FieldFF, FieldN, Signed16,
           Wrap, Machine.ControlInstr;
      ok := true;
      FieldRanges(w);
      match opcode
      case 0x11 => RunJumpReg(false, FieldB(w));
      case 0x12 => RunJumpReg(true, FieldB(w));
      case _ => RunJump(opcode, FieldN(w));
    }

    method RunSystemGroup(w: uint32, opcode: nat) returns (ok: bool)
      requires Valid() && opcode == w / 0x400_0000
      requires Decoded(Decode(w)) && !State().Exec(Decode(w)).Stuck?
      requires opcode in {0x05, 0x06, 0x08, 0x09}
      modifies this, immu, dmmu, reg
      ensures Valid() && Outcome(old(State()).Exec(Decode(w)), State(), ok)
    {
      hide Cpu.State, Cpu.Valid, Cpu.Wired, FieldD, FieldA, FieldB, FieldK, FieldSplitK, FieldFF, FieldN, Signed16,
           Wrap, Machine.Throw, Machine.IncrementPC, Machine.SetSr, Machine.Finish;
      ok := true;
      FieldRanges(w);
      match opcode
      case 0x05 => ok := RunNop(FieldK(w));
      case 0x06 => Finish(FieldD(w), FieldK(w) * 0x1_0000);
      case 0x09 => RunRfe();
      case _ =>
        if w / 0x1_0000 == 0x2000 {
          RunSys(FieldK(w));
        } else if w / 0x1_0000 == 0x2100 {
          IncrementPC();
          ok := false;
        } else {
          RunIllegal();
        }
    }

    method RunMemoryGroup(w: uint32, opcode: nat) returns (ok: bool)
      requires Valid() && opcode == w / 0x400_0000
      requires Decoded(Decode(w)) && !State().Exec(Decode(w)).Stuck?
      requires opcode in {0x21, 0x23, 0x24, 0x25, 0x26, 0x35, 0x36, 0x37}
      modifies this, immu, dmmu, reg, bus.uart, bus.ram.cells
      ensures Valid() && Outcome(old(State()).Exec(Decode(w)), State(), ok)
    {
      hide Cpu.State, Cpu.Valid, Cpu.Wired, FieldD, FieldA, FieldB, FieldK, FieldSplitK, FieldFF, FieldN, Signed16,
           Wrap, Machine.LoadInstr, Machine.StoreInstr, Machine.AluInstr, Machine.CompareInstr, Machine.ReadSprInstr,
           Machine.WriteSprInstr;
      ok := true;
      FieldRanges(w);
      var base := Reg(FieldA(w));
      if opcode < 0x30 {
        var load := match opcode case 0x21 => Lwz case 0x23 => Lbz case 0x24 => Lbs case 0x25 => Lhz case _ => Lhs;
        RunLoad(load, FieldD(w), Wrap(base + Signed16(FieldK(w))));
      } else {
        var v := Reg(FieldB(w));
        RunStore(match opcode case 0x35 => 4 case 0x36 => 1 case _ => 2, Wrap(base + Signed16(FieldSplitK(w))), v);
      }
    }

    method RunImmediateGroup(w: uint32, opcode: nat) returns (ok: bool)
      requires Valid() && opcode == w / 0x400_0000
      requires Decoded(Decode(w)) && !State().Exec(Decode(w)).Stuck?
      requires opcode in {0x27, 0x29, 0x2a, 0x2b, 0x2e}
      modifies this, immu, dmmu, reg
      ensures Valid() && Outcome(old(State()).Exec(Decode(w)), State(), ok)
    {
      hide Cpu.State, Cpu.Valid, Cpu.Wired, FieldD, FieldA, FieldB, FieldK, FieldSplitK, FieldFF, FieldN, Signed16,
           Wrap, Machine.LoadInstr, Machine.StoreInstr, Machine.AluInstr, Machine.CompareInstr, Machine.ReadSprInstr,
           Machine.WriteSprInstr, SignExtend16;
      ok := true;
      FieldRanges(w);
      var a := Reg(FieldA(w));
      if opcode == 0x2e {
        match w / 0x40 % 4
        case 0 => RunAlu(Sll, FieldD(w), a, w % 0x20);
        case 1 => RunAlu(Srl, FieldD(w), a, w % 0x20);
        case 2 => RunAlu(Sra, FieldD(w), a, w % 0x20);
        case _ => RunIllegal();
      } else {
        match opcode
        case 0x27 => RunAlu(Add, FieldD(w), a, SignExtend16(FieldK(w)));
        case 0x29 => RunAlu(And, FieldD(w), a, FieldK(w));
        case 0x2a => RunAlu(Or, FieldD(w), a, FieldK(w));
        case _ => RunAlu(Xor, FieldD(w), a, SignExtend16(FieldK(w)));
      }
    }

    method RunSpecialGroup(w: uint32, opcode: nat) returns (ok: bool)
      requires Valid() && opcode == w / 0x400_0000
      requires Decoded(Decode(w)) && !State().Exec(Decode(w)).Stuck?
      requires opcode in {0x2d, 0x30}
      modifies this, immu, dmmu, reg, immu.matchReg, immu.translateReg, dmmu.matchReg, dmmu.translateReg
      ensures Valid() && Outcome(old(State()).Exec(Decode(w)), State(), ok)
    {
      hide Cpu.State, Cpu.Valid, Cpu.Wired, FieldD, FieldA, FieldB, FieldK, FieldSplitK, FieldFF, FieldN, Signed16,
           Wrap, Machine.LoadInstr, Machine.StoreInstr, Machine.AluInstr, Machine.CompareInstr, Machine.ReadSprInstr,
           Machine.WriteSprInstr, SprAddress;
      ok := true;
      FieldRanges(w);
      var base := Reg(FieldA(w));
      if opcode == 0x2d {
        RunReadSpr(FieldD(w), SprAddress(base, FieldK(w)));
      } else {
        var v := Reg(FieldB(w));
        RunWriteSpr(SprAddress(base, FieldSplitK(w)), v);
      }
    }

    method RunCompareGroup(w: uint32, opcode: nat) returns (ok: bool)
      requires Valid() && opcode == w / 0x400_0000
      requires Decoded(Decode(w)) && !State().Exec(Decode(w)).Stuck?
      requires opcode in {0x2f, 0x39}
      modifies this, immu, dmmu, reg
      ensures Valid() && Outcome(old(State()).Exec(Decode(w)), State(), ok)
    {
      hide Cpu.State, Cpu.Valid, Cpu.Wired, FieldA, FieldB, FieldK, Signed16, Wrap, Machine.Exec, Machine.ControlInstr,
           Machine.CompareInstr, Decode, DecodeCond;
      ok := true;
      FieldRanges(w);
      CompareDecodes(State(), w, opcode);
      var a := Reg(FieldA(w));
      var rhs: uint32;
      if opcode == 0x2f {
        rhs := Wrap(Signed16(FieldK(w)));
      } else {
        rhs := Reg(FieldB(w));
      }
      var c := SelectCond(w / 0x20_0000 - (if opcode == 0x2f then 0x5e0 else 0x720));
      if c.None? {
        RunIllegal();
      } else {
        RunCompare(c.value, a, rhs);
      }
    }

    /** The comparison that a code selects. */
    method SelectCond(code: nat) returns (c: Option<Cond>)
      ensures DecodeCond(code) == match c case None => [] case Some(x) => [x]
    {
      match code {
        case 0x0 => c := Some(Eq);
        case 0x1 => c := Some(Ne);
        case 0x2 => c := Some(Gtu);
        case 0x3 => c := Some(Geu);
        case 0x4 => c := Some(Ltu);
        case 0x5 => c := Some(Leu);
        case 0xa => c := Some(Gts);
        case 0xb => c := Some(Ges);
        case 0xc => c := Some(Lts);
        case 0xd => c := Some(Les);
        case _ => c := None;
      }
    }

    method RunRegisterGroup(w: uint32, opcode: nat) returns (ok: bool)
      requires Valid() && opcode == w / 0x400_0000
      requires Decoded(Decode(w)) && !State().Exec(Decode(w)).Stuck?
      requires opcode in {0x38}
      modifies this, immu, dmmu, reg
      ensures Valid() && Outcome(old(State()).Exec(Decode(w)), State(), ok)
    {
      hide Cpu.State, Cpu.Valid, Cpu.Wired, FieldD, FieldA, FieldB, FieldK, FieldSplitK, FieldFF, FieldN, Signed16,
           Wrap, Machine.LoadInstr, Machine.StoreInstr, Machine.AluInstr, Machine.CompareInstr, Machine.ReadSprInstr,
           Machine.WriteSprInstr;
      ok := true;
      FieldRanges(w);
      var d := FieldD(w);
      var a := Reg(FieldA(w));
      var b := Reg(FieldB(w));
      var op: AluOp;
      match FieldFF(w) {
        case 0x00 => op := Add;
        case 0x02 => op := Sub;
        case 0x03 => op := And;
        case 0x04 => op := Or;
        case 0x05 => op := Xor;
        case 0x08 => op := Sll;
        case 0x0f => op := Ff1;
        case 0x18 => op := Srl;
        case 0x28 => op := Sra;
        case 0x4f => op := Fl1;
        case 0xc6 => op := Mul;
        case 0xc9 => op := Div;
        case 0xca => op := Divu;
        case _ => RunIllegal(); return;
      }
      RunAlu(op, d, a, b);
    }

    /** Decodes and runs one instruction; false ends the run. */
    method RunInstruction(w: uint32) returns (ok: bool)
      requires Valid() && Decoded(Decode(w)) && !State().Exec(Decode(w)).Stuck?
      modifies this, immu, dmmu, reg, immu.matchReg, immu.translateReg, dmmu.matchReg, dmmu.translateReg, bus.uart,
               bus.ram.cells
      ensures Valid() && Outcome(old(State()).Exec(Decode(w)), State(), ok)
    {
      hide Cpu.State, Cpu.Valid, Cpu.Wired, FieldD, FieldA, FieldB, FieldK, FieldSplitK, FieldFF, FieldN, Signed16,
           Wrap, Machine.Exec, Decode, Decoded;
      var opcode := w / 0x400_0000;
      if opcode in {0x00, 0x01, 0x03, 0x04, 0x11, 0x12} {
        ok := RunJumpGroup(w, opcode);
      } else if opcode in {0x05, 0x06, 0x08, 0x09} {
        ok := RunSystemGroup(w, opcode);
      } else if opcode in {0x21, 0x23, 0x24, 0x25, 0x26, 0x35, 0x36, 0x37} {
        ok := RunMemoryGroup(w, opcode);
      } else if opcode in {0x27, 0x29, 0x2a, 0x2b, 0x2e} {
        ok := RunImmediateGroup(w, opcode);
      } else if opcode in {0x2d, 0x30} {
        ok := RunSpecialGroup(w, opcode);
      } else if opcode in {0x2f, 0x39} {
        ok := RunCompareGroup(w, opcode);
      } else if opcode == 0x38 {
        ok := RunRegisterGroup(w, opcode);
      } else {
        OtherOpcodes(State(), w);
        RunIllegal();
        ok := true;
      }
    }

    // -------------------------------------------------------------- runs

    /** The instruction fetch of the loop in Run: the remembered page through the raw pointer,
        else the IMMU, which may refill the memory of it. */
    method FetchInstruction() returns (w: uint32, signal: Signal)
      requires Valid() && !State().Fetch().NoFetch?
      modifies this`authedPage, this`authedPhy, immu
      ensures Valid()
      ensures match old(State()).Fetch()
              case NoFetch => false
              case FetchFault(e, m) => signal == Some(e) && State() == m
              case Word(x, m) => signal == None && w == x && State() == m
    {
      CacheHit(authedPage, authedPhy, pc);
      hide PageOf, Machine.CachedWord, Bit, CacheOf, CacheRegisters, PageCache.Hits, Mmu.State, Mmu.Valid,
           MmuState.Map, MmuState.AfterMap, MmuState.Load, MmuState.AfterLoad;
      if PageOf(pc) == authedPage {
        w := RawFetch();
        return w, None;
      }
      w, signal := FetchSlow();
    }

    /** The word of the remembered page at the program counter, through the raw pointer. */
    method RawFetch() returns (w: uint32)
      requires Valid() && State().fetch.Hits(State().pc) && State().pc % 4 == 0
      ensures State().Valid() && w == State().CachedWord()
    {
      CacheHit(authedPage, authedPhy, pc);
      PageOfPage(pc);
      NotOne(PageOf(pc));
      FramePage(authedPhy, pc);
      LowBitsOfOffset(authedPhy / PAGE_SIZE, pc % PAGE_SIZE);
      LowBitsOfOffset(pc / PAGE_SIZE, pc % PAGE_SIZE);
      hide PageOf, Get32, BigEndian;
      bus.ram.RawWordIsBigEndian(authedPhy + pc % PAGE_SIZE);
      w := bus.ram.RawWord(authedPhy + pc % PAGE_SIZE);
    }

    method FetchSlow() returns (w: uint32, signal: Signal)
      requires Valid() && !State().Fetch().NoFetch? && !State().fetch.Hits(State().pc)
      modifies this`authedPage, this`authedPhy, immu
      ensures Valid()
      ensures match old(State()).Fetch()
              case NoFetch => false
              case FetchFault(e, m) => signal == Some(e) && State() == m
              case Word(x, m) => signal == None && w == x && State() == m
    {
      ghost var m := State();
      hide Cpu.State, Cpu.Valid, Cpu.Wired, PageOf, Machine.CachedWord, Machine.Remember, PageCache.Hits,
           MmuState.Map, MmuState.AfterMap, MmuState.Load, MmuState.AfterLoad;
      var phy, s, isRam := MapFetch();
      if s.Some? {
        return 0, s;
      }
      if isRam {
        Remember(phy);
        w := RawFetch();
        return w, None;
      }
      w := FetchDevice();
      return w, None;
    }

    /** Translates the program counter. */
    method MapFetch() returns (phy: uint32, signal: Signal, isRam: bool)
      requires Valid()
      modifies immu
      ensures Valid()
      ensures var m := old(State());
              var sm := m.r.Supervisor();
              && State() == m.(immu := m.immu.AfterMap(m.pc, sm, false))
              && signal == (match m.immu.Map(m.pc, sm, false) case Missed(e) => Some(e) case Mapped(_) => None)
              && (signal.None? ==> phy == m.immu.Map(m.pc, sm, false).phy && isRam == (phy < RAM_SIZE))
    {
      hide Mmu.State, Mmu.Valid, Bus.State, Bus.Valid, CacheOf, CacheRegisters, MmuState.Map, MmuState.AfterMap;
      phy, signal, isRam := immu.MapAddress(pc, Bit(sr, SM), false);
    }

    /** The slowest path: a bus read through the IMMU whose exception is ignored. */
    method FetchDevice() returns (w: uint32)
      requires Valid()
      requires !State().immu.Load(State().bus, 4, State().pc, State().r.Supervisor()).Undefined?
      modifies immu
      ensures Valid()
      ensures var m := old(State());
              && State() == m.(immu := m.immu.AfterLoad(4, m.pc, m.r.Supervisor()))
              && w == match m.immu.Load(m.bus, 4, m.pc, m.r.Supervisor()) case Value(v, _) => v case _ => 0
    {
      hide Mmu.State, Mmu.Valid, Bus.State, Bus.Valid, CacheOf, CacheRegisters, MmuState.Load, MmuState.AfterLoad;
      var ignored;
      w, ignored := immu.Load32(pc, Bit(sr, SM));
    }

    method Remember(phy: uint32)
      requires Valid() && phy < RAM_SIZE
      modifies this`authedPage, this`authedPhy
      ensures Valid()
      ensures State() == old(State()).Remember(phy) && State().fetch.Hits(State().pc)
    {
      PageOfPage(pc);
      NotOne(PageOf(pc));
      FramePage(phy, pc);
      hide PageOf, Mmu.State, Mmu.Valid, Bus.State, Bit;
      authedPage := PageOf(pc);
      authedPhy := PageOf(phy);
    }

    method CheckInterrupts()
      requires Valid()
      modifies this, immu, dmmu
      ensures Valid() && State() == old(State()).CheckInterrupts()
    {
      hide Cpu.State, Cpu.Valid, Cpu.Wired, Regs.Sampled, Regs.InterruptDue, Machine.Throw;
      ghost var m := State();
      SampleInterrupts();
      SampledValid(m);
      var due := InterruptDue();
      if due {
        ThrowException(ExternalInterrupt, 0);
        ClearPending();
      }
    }

    lemma SampledValid(m: Machine)
      requires m.Valid()
      ensures m.(r := m.r.Sampled(m.bus.Interrupts())).Valid()
    {
      hide Bit;
    }

    method InterruptDue() returns (due: bool)
      requires Valid()
      ensures due == State().r.InterruptDue()
    {
      hide Mmu.State, Mmu.Valid, Bus.State, Bus.Valid, CacheOf, CacheRegisters, Bit, Bitwise;
      due := Bit(sr, IEE) && pendingInterrupt && Bitwise32(AndBits, picsr, picmr) != 0;
    }

    method ClearPending()
      requires Valid()
      modifies this
      ensures Valid() && State() == old(State()).(r := old(State()).r.(pending := false))
    {
      hide Mmu.State, Mmu.Valid, Bus.State, Bus.Valid, CacheOf, CacheRegisters, Bit;
      pendingInterrupt := false;
    }

    method SampleInterrupts()
      requires Valid()
      modifies this
      ensures Valid() && State() == old(State()).(r := old(State()).r.Sampled(old(State()).bus.Interrupts()))
    {
      hide Mmu.State, Mmu.Valid, Bus.State, Bus.Valid, CacheOf, CacheRegisters, Bit;
      var lines := bus.Interrupts();
      if lines != picsr {
        picsr := lines;
        pendingInterrupt := picsr != 0;
      }
    }

    /** The tick of the timer at the start of a cycle; true if its exception is taken. */
    method Tick() returns (raised: bool)
      requires Valid()
      modifies this
      ensures Valid()
      ensures State() == old(State()).(r := old(State()).r.Ticked()) && raised == State().r.TickRaises()
    {
      hide Mmu.State, Mmu.Valid, Bus.State, Bus.Valid, CacheOf, CacheRegisters;
      ttcr := Wrap(ttcr + 1);
      if ttmr / 0x4000_0000 == 3 && ttcr % TIMER_PERIOD == ttmr % TIMER_PERIOD && Bit(ttmr, 0x2000_0000) {
        ttmr := WithPending(ttmr);
        return Bit(sr, TEE);
      }
      return false;
    }

    method SetPC(at: uint32)
      requires Valid()
      modifies this
      ensures Valid() && State() == old(State()).(pc := at)
    {
      pc := at;
    }

    method PC() returns (at: uint32)
      requires Valid()
      ensures at == State().pc
    {
      at := pc;
    }

    method Cycle() returns (go: bool, ok: bool)
      requires Valid() && !State().Cycle().Stuck?
      modifies this, immu, dmmu, reg, immu.matchReg, immu.translateReg, dmmu.matchReg, dmmu.translateReg, bus.uart,
               bus.ram.cells
      ensures Valid()
      ensures old(State()).Cycle() == if go then Continue(State()) else Stopped(State(), ok)
    {
      hide Cpu.State, Cpu.Valid, Cpu.Wired, Machine.Fetch, Machine.Exec, Machine.Throw, Decode, Decoded, Regs.Ticked,
           Regs.TickRaises;
      ghost var m := State();
      TickedValid(m);
      var raised := Tick();
      if raised {
        ThrowException(TickTimerInterrupt, 0);
        return false, true;
      }
      ghost var t := State();
      FetchKeeps(t);
      var w, signal := FetchInstruction();
      if signal.Some? {
        var at := PC();
        ThrowException(signal.value, at);
        return false, true;
      }
      DecodeDecoded(w);
      StoppedIsFalse(State(), Decode(w));
      ok := RunInstruction(w);
      return ok, ok;
    }

    /** Samples the interrupts, then runs up to the given number of cycles. */
    method Run(cycles: nat) returns (ok: bool)
      requires Valid() && !MachineRun(State(), cycles).Stuck?
      modifies this, immu, dmmu, reg, immu.matchReg, immu.translateReg, dmmu.matchReg, dmmu.translateReg, bus.uart,
               bus.ram.cells
      ensures Valid() && Outcome(old(MachineRun(State(), cycles)), State(), ok)
    {
      hide Cpu.State, Cpu.Valid, Cpu.Wired, Machine.Cycle, Machine.CheckInterrupts;
      CheckValid(State());
      CheckInterrupts();
      ghost var m := State();
      var i := 0;
      while i < cycles
        invariant 0 <= i <= cycles && Valid()
        invariant RunCycles(State(), cycles - i) == RunCycles(m, cycles)
      {
        CycleValid(State());
        var go, result := Cycle();
        if !go {
          return result;
        }
        i := i + 1;
      }
      return true;
    }
  }
}
