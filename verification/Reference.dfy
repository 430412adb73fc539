/** The reference machine: the simulator without its shortcuts. Every access is translated
    afresh, the enables are read from SR, memory is flat and big-endian, and the program counter
    is the pair of this and the next instruction (OpenRISC 1000 Architecture Manual 1.0). Rules of
    the simulator that have nothing to do with its caches are kept as they are. */
module Reference {
  import opened Words
  import opened Exceptions
  import opened Bus
  import opened Translation
  import opened Isa
  import opened Registers
  import opened Machine

  datatype Reference = Reference(r: Regs, pc: uint32, npc: uint32, slot: bool, itlb: Tlb, dtlb: Tlb, bus: BusState)
  {
    predicate Valid() { r.Valid() && itlb.Valid() && dtlb.Valid() && bus.Valid() }

    // -------------------------------------------------------------- control state

    /** Go on to the next instruction. */
    function Advance(): Reference {
      this.(pc := npc, npc := Wrap(npc + 4), slot := false)
    }

    /** Go on to the next instruction, the delay slot, and from there to the target. */
    function Branch(next: uint32): Reference {
      this.(pc := npc, npc := next, slot := true)
    }

    function Enter(at: uint32): Reference {
      this.(pc := at, npc := Wrap(at + 4), slot := false)
    }

    /** An exception of the current instruction: one in a delay slot belongs to its jump. */
    function Raise(e: Exception, ea: uint32): Reference {
      RaiseFrom(e, ea, if slot then Wrap(pc - 4) else pc)
    }

    function RaiseFrom(e: Exception, ea: uint32, epcr: uint32): Reference {
      this.(r := r.(sr := RESET_SR, esr := if slot then WithDsx(r.sr) else r.sr, epcr := epcr,
                    eear := if SetsEear(e) then ea else r.eear)).Enter(Vector(e))
    }

    function SetGpr(d: nat, v: uint32): Reference
      requires r.Valid() && d < GPRS
    {
      this.(r := r.SetGpr(d, v))
    }

    function Finish(d: nat, v: uint32): Step<Reference>
      requires r.Valid() && d < GPRS
    {
      Continue(SetGpr(d, v).Advance())
    }

    function WriteSpr(address: uint16, v: uint32): Option<Reference>
      requires Valid()
    {
      match SprAt(address)
      case SrReg => Some(this.(r := r.(sr := v)))
      case EpcrReg => Some(this.(r := r.(epcr := v)))
      case EearReg => Some(this.(r := r.(eear := v)))
      case EsrReg => Some(this.(r := r.(esr := v)))
      case DtlbReg(index) =>
        (match dtlb.Write(index, v) case None => None case Some(t) => Some(this.(dtlb := t)))
      case ItlbReg(index) =>
        (match itlb.Write(index, v) case None => None case Some(t) => Some(this.(itlb := t)))
      case PicmrReg => Some(this.(r := r.(picmr := v)))
      case PicsrReg => Some(this.(r := r.(picsr := v)))
      case TtmrReg => Some(this.(r := r.(ttmr := v)))
      case TtcrReg => Some(this.(r := r.(ttcr := v)))
      case _ => Some(this)
    }

    // -------------------------------------------------------------- instructions

    function LoadInstr(load: LoadKind, d: nat, ea: uint32): Step<Reference>
      requires Valid() && d < GPRS
    {
      match PlainLoad(dtlb, Bit(r.sr, DME), bus, load.Width(), ea, r.Supervisor())
      case Undefined => Stuck
      case Fault(e) => Continue(Raise(e, ea))
      case Value(v, b) => this.(bus := b).Finish(d, load.Extend(v))
    }

    function StoreInstr(width: nat, ea: uint32, v: uint32): Step<Reference>
      requires Valid() && width in {1, 2, 4}
    {
      match PlainStore(dtlb, Bit(r.sr, DME), bus, width, ea, v, r.Supervisor())
      case Undefined => Stuck
      case Fault(e) => Continue(Raise(e, ea))
      case Value(_, b) => Continue(this.(bus := b).Advance())
    }

    function AluInstr(op: AluOp, d: nat, x: uint32, y: uint32): Step<Reference>
      requires r.Valid() && d < GPRS
    {
      if Overflows(op, x, y) then Stuck else Finish(d, AluValue(op, x, y))
    }

    function CompareInstr(c: Cond, x: uint32, y: uint32): Step<Reference> {
      Continue(this.(r := r.Compared(Holds(c, x, y))).Advance())
    }

    function ReadSprInstr(d: nat, address: uint16): Step<Reference>
      requires Valid() && d < GPRS
    {
      match ReadSpr(r, itlb, dtlb, address)
      case None => Stuck
      case Some(v) => Finish(d, v)
    }

    function WriteSprInstr(address: uint16, v: uint32): Step<Reference>
      requires Valid()
    {
      match WriteSpr(address, v)
      case None => Stuck
      case Some(a) => Continue(if a.r.TimerDue() then a.Raise(TickTimerInterrupt, 0) else a.Advance())
    }

    function ControlInstr(x: Instr): Step<Reference>
      requires r.Valid() && Decoded(x) && IsControl(x)
    {
      match x
      case Jump(n) => Continue(Branch(Wrap(pc + n)))
      case JumpLink(n) => Continue(SetGpr(9, Wrap(pc + 8)).Branch(Wrap(pc + n)))
      case Branch(onFlag, n) => if Bit(r.sr, F) == onFlag then Continue(Branch(Wrap(pc + n))) else Continue(Advance())
      case Nop(k) => if r.Supervisor() && k == 1 then Stopped(this, false) else Continue(Advance())
      case Sys(_) => Continue(RaiseFrom(SystemCall, 0, if slot then pc else Wrap(pc + 4)))
      case Trap(_) => Stopped(Advance(), false)
      case Rfe => Continue(this.(r := r.(sr := r.esr)).Enter(r.epcr))
      case JumpReg(b) => Continue(Branch(r.gpr[b]))
      case JumpLinkReg(b) =>
        var linked := SetGpr(9, Wrap(pc + 8));
        Continue(linked.Branch(linked.r.gpr[b]))
      case Illegal => Continue(Raise(IllegalInstruction, pc))
    }

    function Exec(x: Instr): Step<Reference>
      requires Valid() && Decoded(x)
    {
      match x
      case MovHi(d, k) => Finish(d, k * 0x1_0000)
      case Load(load, d, a, i) => LoadInstr(load, d, Wrap(r.gpr[a] + i))
      case Store(width, a, b, i) => StoreInstr(width, Wrap(r.gpr[a] + i), r.gpr[b])
      case AluImm(op, d, a, k) => AluInstr(ImmToAlu(op), d, r.gpr[a], ImmOperand(op, k))
      case Mfspr(d, a, k) => ReadSprInstr(d, SprAddress(r.gpr[a], k))
      case Mtspr(a, b, k) => WriteSprInstr(SprAddress(r.gpr[a], k), r.gpr[b])
      case CompareImm(c, a, i) => CompareInstr(c, r.gpr[a], Wrap(i))
      case Alu(op, d, a, b) => AluInstr(op, d, r.gpr[a], r.gpr[b])
      case Compare(c, a, b) => CompareInstr(c, r.gpr[a], r.gpr[b])
      case _ => ControlInstr(x)
    }

    // -------------------------------------------------------------- cycles

    /** The word at the program counter, translated afresh; zero where no memory answers. */
    function Fetch(): Fetched<Reference>
      requires Valid()
    {
      match Translate(itlb, Bit(r.sr, IME), InstructionMmu, pc, r.Supervisor(), false)
      case Missed(e) => FetchFault(e, this)
      case Mapped(phy) =>
        match BusLoad(bus, 4, phy)
        case Undefined => NoFetch
        case Fault(_) => Word(0, this)
        case Value(w, _) => Word(w, this)
    }

    function Cycle(): Step<Reference>
      requires Valid()
    {
      var a := this.(r := r.Ticked());
      if a.r.TickRaises() then Stopped(a.Raise(TickTimerInterrupt, 0), true)
      else match a.Fetch()
        case NoFetch => Stuck
        case FetchFault(e, a) => Stopped(a.Raise(e, a.pc), true)
        case Word(w, _) => DecodeDecoded(w); a.Exec(Decode(w))
    }

    function CheckInterrupts(): Reference {
      var a := this.(r := r.Sampled(bus.Interrupts()));
      if a.r.InterruptDue() then
        var t := a.Raise(ExternalInterrupt, 0);
        t.(r := t.r.(pending := false))
      else a
    }

    function Reset(): Reference {
      Reference(Regs(seq(GPRS, i => 0), RESET_SR, 0, 0, 0, 0, 0, false, 0, 0), 0, 4, false,
           itlb.(matches := seq(SETS, i => 0)), dtlb.(matches := seq(SETS, i => 0)), bus)
    }
  }

  // ---------------------------------------------------------------- runs

  lemma SpecialValid(a: Reference, d: nat, address: uint16, v: uint32)
    requires a.Valid() && d < GPRS
    ensures !a.ReadSprInstr(d, address).Stuck? ==> a.ReadSprInstr(d, address).s.Valid()
    ensures !a.WriteSprInstr(address, v).Stuck? ==> a.WriteSprInstr(address, v).s.Valid()
  {
    hide SprAt, WithDsx, Bit;
  }

  lemma MemoryValid(a: Reference, width: nat, ea: uint32, v: uint32)
    requires a.Valid() && width in {1, 2, 4}
    ensures var reply := PlainLoad(a.dtlb, Bit(a.r.sr, DME), a.bus, width, ea, a.r.Supervisor());
            reply.Value? ==> reply.bus.Valid()
    ensures var reply := PlainStore(a.dtlb, Bit(a.r.sr, DME), a.bus, width, ea, v, a.r.Supervisor());
            reply.Value? ==> reply.bus.Valid()
  {
    hide Translate, Bit;
  }

  lemma ControlInstrValid(a: Reference, x: Instr)
    requires a.Valid() && Decoded(x) && IsControl(x)
    ensures !a.ControlInstr(x).Stuck? ==> a.ControlInstr(x).s.Valid()
  {
  }

  lemma ExecKeepsValid(a: Reference, x: Instr)
    requires a.Valid() && Decoded(x)
    ensures !a.Exec(x).Stuck? ==> a.Exec(x).s.Valid()
  {
    hide Reference.ControlInstr, Reference.ReadSprInstr, Reference.WriteSprInstr, PlainLoad, PlainStore, AluValue,
         Holds, WithDsx, Bit;
    match x
    case Load(load, d, y, i) => MemoryValid(a, load.Width(), Wrap(a.r.gpr[y] + i), 0);
    case Store(width, y, b, i) => MemoryValid(a, width, Wrap(a.r.gpr[y] + i), a.r.gpr[b]);
    case Mfspr(d, y, k) => SpecialValid(a, d, SprAddress(a.r.gpr[y], k), 0);
    case Mtspr(y, b, k) => SpecialValid(a, 0, SprAddress(a.r.gpr[y], k), a.r.gpr[b]);
    case MovHi(_, _) =>
    case AluImm(_, _, _, _) =>
    case CompareImm(_, _, _) =>
    case Alu(_, _, _, _) =>
    case Compare(_, _, _) =>
    case _ => ControlInstrValid(a, x);
  }

  lemma CycleKeepsValid(a: Reference)
    requires a.Valid()
    ensures !a.Cycle().Stuck? ==> a.Cycle().s.Valid()
  {
    hide Reference.Exec, Decode, Decoded, BusLoad, Translate;
    var t := a.(r := a.r.Ticked());
    if !t.r.TickRaises() && t.Fetch().Word? {
      DecodeDecoded(t.Fetch().w);
      ExecKeepsValid(t, Decode(t.Fetch().w));
    }
  }

  function ReferenceCycles(a: Reference, n: nat): (r: Step<Reference>)
    requires a.Valid()
    ensures !r.Stuck? ==> r.s.Valid()
    decreases n
  {
    if n == 0 then Continue(a)
    else
      CycleKeepsValid(a);
      match a.Cycle()
      case Continue(b) => ReferenceCycles(b, n - 1)
      case stop => stop
  }

  lemma SampleKeepsValid(a: Reference)
    requires a.Valid()
    ensures a.CheckInterrupts().Valid()
  {
  }

  function ReferenceRun(a: Reference, n: nat): (r: Step<Reference>)
    requires a.Valid()
    ensures !r.Stuck? ==> r.s.Valid()
  {
    SampleKeepsValid(a);
    ReferenceCycles(a.CheckInterrupts(), n)
  }
}
