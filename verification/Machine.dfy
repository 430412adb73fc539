/** The simulator as it is (simctty/cpu.cc), as functions on a state value: page caches, enable
    flags held in the MMUs, and a delay slot flag with a pending target. */
module Machine {
  import opened Words
  import opened Exceptions
  import opened Memory
  import opened Bus
  import opened Translation
  import opened Isa
  import opened Registers

  datatype Machine = Machine(
    r: Regs, pc: uint32, slot: bool, target: uint32,
    fetch: PageCache, immu: MmuState, dmmu: MmuState, bus: BusState)
  {
    /** What holds in every state, whatever the program does. */
    predicate Valid() {
      && r.Valid() && fetch.Valid() && immu.Valid() && dmmu.Valid() && bus.Valid()
      && immu.kind == InstructionMmu && dmmu.kind == DataMmu
      && immu.enabled == Bit(r.sr, IME) && dmmu.enabled == Bit(r.sr, DME)
    }

    // -------------------------------------------------------------- control state

    /** Every write of SR goes through here: enables follow SR and all page caches empty. */
    function SetSr(v: uint32): Machine {
      this.(r := r.(sr := v), fetch := NoPage,
            immu := immu.(enabled := Bit(v, IME), cache := NoPage),
            dmmu := dmmu.(enabled := Bit(v, DME), cache := NoPage))
    }

    function Throw(e: Exception, ea: uint32): Machine {
      var esr := if slot then WithDsx(r.sr) else r.sr;
      var epcr := if slot then Wrap(pc - 4) else pc;
      var m := SetSr(RESET_SR);
      m.(r := m.r.(esr := esr, epcr := epcr, eear := if SetsEear(e) then ea else r.eear),
         pc := Vector(e), slot := false)
    }

    function IncrementPC(): Machine {
      this.(pc := if slot then target else Wrap(pc + 4), slot := false)
    }

    function JumpTo(next: uint32): Machine {
      this.(target := next, pc := Wrap(pc + 4), slot := true)
    }

    function SetGpr(d: nat, v: uint32): Machine
      requires r.Valid() && d < GPRS
    {
      this.(r := r.SetGpr(d, v))
    }

    function Finish(d: nat, v: uint32): Step<Machine>
      requires r.Valid() && d < GPRS
    {
      Continue(SetGpr(d, v).IncrementPC())
    }

    /** Writing a special register; None where the source ends the process. */
    function WriteSpr(address: uint16, v: uint32): Option<Machine>
      requires Valid()
    {
      match SprAt(address)
      case SrReg => Some(SetSr(v))
      case EpcrReg => Some(this.(r := r.(epcr := v)))
      case EearReg => Some(this.(r := r.(eear := v)))
      case EsrReg => Some(this.(r := r.(esr := v)))
      case DtlbReg(index) =>
        (match dmmu.tlb.Write(index, v)
         case None => None
         case Some(t) => Some(this.(dmmu := dmmu.(tlb := t, cache := NoPage))))
      case ItlbReg(index) =>
        (match immu.tlb.Write(index, v)
         case None => None
         case Some(t) => Some(this.(immu := immu.(tlb := t, cache := NoPage))))   // the fetch cache stays
      case PicmrReg => Some(this.(r := r.(picmr := v)))
      case PicsrReg => Some(this.(r := r.(picsr := v)))
      case TtmrReg => Some(this.(r := r.(ttmr := v)))
      case TtcrReg => Some(this.(r := r.(ttcr := v)))
      case _ => Some(this)
    }

    // -------------------------------------------------------------- instructions

    function LoadInstr(load: LoadKind, d: nat, ea: uint32): Step<Machine>
      requires Valid() && d < GPRS
    {
      var m := this.(dmmu := dmmu.AfterLoad(load.Width(), ea, r.Supervisor()));
      match dmmu.Load(bus, load.Width(), ea, r.Supervisor())
      case Undefined => Stuck
      case Fault(e) => Continue(m.Throw(e, ea))
      case Value(v, b) => m.(bus := b).Finish(d, load.Extend(v))
    }

    function StoreInstr(width: nat, ea: uint32, v: uint32): Step<Machine>
      requires Valid() && width in {1, 2, 4}
    {
      var m := this.(dmmu := dmmu.AfterStore(width, ea, r.Supervisor()));
      match dmmu.Store(bus, width, ea, v, r.Supervisor())
      case Undefined => Stuck
      case Fault(e) => Continue(m.Throw(e, ea))
      case Value(_, b) => Continue(m.(bus := b).IncrementPC())
    }

    function AluInstr(op: AluOp, d: nat, x: uint32, y: uint32): Step<Machine>
      requires r.Valid() && d < GPRS
    {
      if Overflows(op, x, y) then Stuck else Finish(d, AluValue(op, x, y))
    }

    function CompareInstr(c: Cond, x: uint32, y: uint32): Step<Machine> {
      Continue(this.(r := r.Compared(Holds(c, x, y))).IncrementPC())
    }

    function ReadSprInstr(d: nat, address: uint16): Step<Machine>
      requires Valid() && d < GPRS
    {
      match ReadSpr(r, immu.tlb, dmmu.tlb, address)
      case None => Stuck
      case Some(v) => Finish(d, v)
    }

    /** A write that leaves a timer interrupt due takes it at once, before moving on. */
    function WriteSprInstr(address: uint16, v: uint32): Step<Machine>
      requires Valid()
    {
      match WriteSpr(address, v)
      case None => Stuck
      case Some(m) => Continue(if m.r.TimerDue() then m.Throw(TickTimerInterrupt, 0) else m.IncrementPC())
    }

    /** Jumps, branches, and the instructions that enter or leave exceptions or stop the run. */
    function ControlInstr(x: Instr): Step<Machine>
      requires r.Valid() && Decoded(x) && IsControl(x)
    {
      match x
      case Jump(n) => Continue(JumpTo(Wrap(pc + n)))
      case JumpLink(n) => Continue(SetGpr(9, Wrap(pc + 8)).JumpTo(Wrap(pc + n)))
      case Branch(onFlag, n) =>
        if Bit(r.sr, F) == onFlag then Continue(JumpTo(Wrap(pc + n))) else Continue(IncrementPC())
      case Nop(k) => if r.Supervisor() && k == 1 then Stopped(this, false) else Continue(IncrementPC())
      case Sys(_) => Continue(this.(pc := Wrap(pc + 4)).Throw(SystemCall, 0))
      case Trap(_) => Stopped(IncrementPC(), false)
      case Rfe => Continue(this.(pc := r.epcr, slot := false).SetSr(r.esr))
      case JumpReg(b) => Continue(JumpTo(r.gpr[b]))
      case JumpLinkReg(b) =>
        var m := SetGpr(9, Wrap(pc + 8));
        Continue(m.JumpTo(m.r.gpr[b]))
      case Illegal => Continue(Throw(IllegalInstruction, pc))
    }

    function Exec(x: Instr): Step<Machine>
      requires Valid() && Decoded(x)
    {
      match x
      case MovHi(d, k) => Finish(d, k * 0x1_0000)
      case Load(load, d, a, i) => LoadInstr(load, d, Wrap(r.gpr[a] + i))
      case Store(width, a, b, i) => StoreInstr(width, Wrap(r.gpr[a] + i), r.gpr[b])
      case AluImm(op, d, a, k) => AluInstr(ImmToAlu(op), d, r.gpr[a], ImmOperand(op, k))
      case Mfspr(d, a, k) => ReadSprInstr(d, SprAddress(r.gpr[a], k))
      case Mtspr(a, b, k) => WriteSprInstr(SprAddress(r.gpr[a], k), r.gpr[b])
      case CompareImm(c, a, i) => CompareInstr(c, r.gpr[a], Wrap(i))
      case Alu(op, d, a, b) => AluInstr(op, d, r.gpr[a], r.gpr[b])
      case Compare(c, a, b) => CompareInstr(c, r.gpr[a], r.gpr[b])
      case _ => ControlInstr(x)
    }

    // -------------------------------------------------------------- cycles

    /** The word at the program counter in the remembered frame. */
    function CachedWord(): uint32
      requires Valid() && fetch.Page? && pc % 4 == 0
    {
      FramePage(fetch.frame, pc);
      Get32(bus.mem, fetch.frame + pc % PAGE_SIZE)
    }

    function Remember(phy: uint32): (m: Machine)
      requires Valid() && phy < RAM_SIZE
      ensures m.Valid()
    {
      PageOfPage(pc);
      FramePage(phy, pc);
      this.(fetch := Page(PageOf(pc), PageOf(phy)))
    }

    /** The instruction fetch: the remembered page, else the IMMU, refilling the memory of it.
        Outside RAM the word is whatever the failed bus read left: zero. */
    function Fetch(): Fetched<Machine>
      requires Valid()
    {
      if fetch.Hits(pc) then
        if pc % 4 != 0 then NoFetch else Word(CachedWord(), this)
      else
        var sm := r.Supervisor();
        var m := this.(immu := immu.AfterMap(pc, sm, false));
        match immu.Map(pc, sm, false)
        case Missed(e) => FetchFault(e, m)
        case Mapped(phy) =>
          if phy < RAM_SIZE then
            if pc % 4 != 0 then NoFetch else Word(m.Remember(phy).CachedWord(), m.Remember(phy))
          else
            match m.immu.Load(bus, 4, pc, sm)
            case Undefined => NoFetch
            case Fault(_) => Word(0, m.(immu := m.immu.AfterLoad(4, pc, sm)))
            case Value(v, _) => Word(v, m.(immu := m.immu.AfterLoad(4, pc, sm)))
    }

    /** One pass of the loop in Run. */
    function Cycle(): Step<Machine>
      requires Valid()
    {
      var m := this.(r := r.Ticked());
      if m.r.TickRaises() then Stopped(m.Throw(TickTimerInterrupt, 0), true)
      else match m.Fetch()
        case NoFetch => Stuck
        case FetchFault(e, m) => Stopped(m.Throw(e, m.pc), true)
        case Word(w, m) =>
          FetchKeeps(this.(r := r.Ticked()));
          DecodeDecoded(w);
          m.Exec(Decode(w))
    }

    function CheckInterrupts(): Machine {
      var m := this.(r := r.Sampled(bus.Interrupts()));
      if m.r.InterruptDue() then
        var t := m.Throw(ExternalInterrupt, 0);
        t.(r := t.r.(pending := false))
      else m
    }

    function Reset(): Machine {
      var m := SetSr(RESET_SR);
      m.(r := Regs(seq(GPRS, i => 0), RESET_SR, 0, 0, 0, 0, 0, false, 0, 0), pc := 0, slot := false,
         immu := m.immu.(tlb := m.immu.tlb.(matches := seq(SETS, i => 0))),
         dmmu := m.dmmu.(tlb := m.dmmu.tlb.(matches := seq(SETS, i => 0))))
    }
  }

  predicate CachesEmpty(m: Machine) {
    m.fetch == NoPage && m.immu.cache == NoPage && m.dmmu.cache == NoPage
  }

  /** An instruction the decoder can produce: its registers exist. */
  predicate Decoded(x: Instr) {
    match x
    case MovHi(d, _) => d < GPRS
    case JumpReg(b) => b < GPRS
    case JumpLinkReg(b) => b < GPRS
    case Load(_, d, a, _) => d < GPRS && a < GPRS
    case Store(width, a, b, _) => width in {1, 2, 4} && a < GPRS && b < GPRS
    case AluImm(_, d, a, _) => d < GPRS && a < GPRS
    case Mfspr(d, a, _) => d < GPRS && a < GPRS
    case Mtspr(a, b, _) => a < GPRS && b < GPRS
    case CompareImm(_, a, _) => a < GPRS
    case Alu(_, d, a, b) => d < GPRS && a < GPRS && b < GPRS
    case Compare(_, a, b) => a < GPRS && b < GPRS
    case _ => true
  }

  predicate IsControl(x: Instr) {
    || x.Jump? || x.JumpLink? || x.Branch? || x.JumpReg? || x.JumpLinkReg?
    || x.Nop? || x.Sys? || x.Trap? || x.Rfe? || x.Illegal?
  }

  lemma DecodeDecoded(w: uint32)
    ensures Decoded(Decode(w))
  {
    DecodedFields(w);
  }

  datatype Fetched<S> = Word(w: uint32, s: S) | FetchFault(exception: Exception, s: S) | NoFetch

  lemma FetchKeeps(m: Machine)
    requires m.Valid()
    ensures m.Fetch().Word? ==> m.Fetch().s.Valid() && m.Fetch().s.r == m.r && m.Fetch().s.bus == m.bus
    ensures m.Fetch().FetchFault? ==> m.Fetch().s.Valid() && m.Fetch().s.r == m.r && m.Fetch().s.pc == m.pc
  {
  }

  // ---------------------------------------------------------------- every state is valid

  lemma WriteSprValid(m: Machine, address: uint16, v: uint32)
    requires m.Valid()
    ensures m.WriteSpr(address, v).Some? ==> m.WriteSpr(address, v).value.Valid()
  {
  }

  lemma BusRepliesValid(m: Machine, width: nat, ea: uint32, v: uint32)
    requires m.Valid() && width in {1, 2, 4}
    ensures var reply := m.dmmu.Load(m.bus, width, ea, m.r.Supervisor());
            reply.Value? ==> reply.bus.Valid()
    ensures var reply := m.dmmu.Store(m.bus, width, ea, v, m.r.Supervisor());
            reply.Value? ==> reply.bus.Valid()
    ensures var u := m.dmmu.AfterLoad(width, ea, m.r.Supervisor());
            u.enabled == m.dmmu.enabled && u.kind == m.dmmu.kind
    ensures var u := m.dmmu.AfterStore(width, ea, m.r.Supervisor());
            u.enabled == m.dmmu.enabled && u.kind == m.dmmu.kind
  {
    hide PageOf, Bit;
  }

  lemma LoadValid(m: Machine, load: LoadKind, d: nat, ea: uint32)
    requires m.Valid() && d < GPRS
    ensures !m.LoadInstr(load, d, ea).Stuck? ==> m.LoadInstr(load, d, ea).s.Valid()
  {
    hide MmuState.Load, MmuState.AfterLoad, LoadKind.Extend, Bit;
    BusRepliesValid(m, load.Width(), ea, 0);
  }

  lemma StoreValid(m: Machine, width: nat, ea: uint32, v: uint32)
    requires m.Valid() && width in {1, 2, 4}
    ensures !m.StoreInstr(width, ea, v).Stuck? ==> m.StoreInstr(width, ea, v).s.Valid()
  {
    hide MmuState.Store, MmuState.AfterStore, Bit;
    BusRepliesValid(m, width, ea, v);
  }

  lemma AluValid(m: Machine, op: AluOp, d: nat, x: uint32, y: uint32)
    requires m.Valid() && d < GPRS
    ensures !m.AluInstr(op, d, x, y).Stuck? ==> m.AluInstr(op, d, x, y).s.Valid()
  {
  }

  lemma CompareValid(m: Machine, c: Cond, x: uint32, y: uint32)
    requires m.Valid()
    ensures m.CompareInstr(c, x, y).s.Valid()
  {
    FlagOnly(m.r.sr, Holds(c, x, y));
  }

  lemma SprInstrValid(m: Machine, d: nat, address: uint16, v: uint32)
    requires m.Valid() && d < GPRS
    ensures !m.ReadSprInstr(d, address).Stuck? ==> m.ReadSprInstr(d, address).s.Valid()
    ensures !m.WriteSprInstr(address, v).Stuck? ==> m.WriteSprInstr(address, v).s.Valid()
  {
    WriteSprValid(m, address, v);
  }

  lemma ControlValid(m: Machine, x: Instr)
    requires m.Valid() && Decoded(x) && IsControl(x)
    ensures !m.ControlInstr(x).Stuck? ==> m.ControlInstr(x).s.Valid()
  {
  }

  lemma ExecValid(m: Machine, x: Instr)
    requires m.Valid() && Decoded(x)
    ensures !m.Exec(x).Stuck? ==> m.Exec(x).s.Valid()
  {
    hide Machine.LoadInstr, Machine.StoreInstr, Machine.AluInstr, Machine.ReadSprInstr, Machine.WriteSprInstr,
         Machine.CompareInstr, Machine.ControlInstr;
    match x
    case Load(load, d, a, i) => LoadValid(m, load, d, Wrap(m.r.gpr[a] + i));
    case Store(width, a, b, i) => StoreValid(m, width, Wrap(m.r.gpr[a] + i), m.r.gpr[b]);
    case AluImm(op, d, a, k) => AluValid(m, ImmToAlu(op), d, m.r.gpr[a], ImmOperand(op, k));
    case Mfspr(d, a, k) => SprInstrValid(m, d, SprAddress(m.r.gpr[a], k), 0);
    case Mtspr(a, b, k) => SprInstrValid(m, 0, SprAddress(m.r.gpr[a], k), m.r.gpr[b]);
    case CompareImm(c, a, i) => CompareValid(m, c, m.r.gpr[a], Wrap(i));
    case Alu(op, d, a, b) => AluValid(m, op, d, m.r.gpr[a], m.r.gpr[b]);
    case Compare(c, a, b) => CompareValid(m, c, m.r.gpr[a], m.r.gpr[b]);
    case MovHi(_, _) =>
    case _ => ControlValid(m, x);
  }

  lemma TickedValid(m: Machine)
    requires m.Valid()
    ensures m.(r := m.r.Ticked()).Valid()
  {
  }

  /** An instruction that stops the run makes it return false. */
  lemma StoppedIsFalse(m: Machine, x: Instr)
    requires m.Valid() && Decoded(x)
    ensures m.Exec(x).Stopped? ==> !m.Exec(x).ok
  {
    hide Bit, WithDsx, AluValue, Holds, MmuState.Load, MmuState.Store, Machine.WriteSpr, ReadSpr, Wrap;
  }

  lemma CycleValid(m: Machine)
    requires m.Valid()
    ensures !m.Cycle().Stuck? ==> m.Cycle().s.Valid()
  {
    var t := m.(r := m.r.Ticked());
    FetchKeeps(t);
    if !t.r.TickRaises() && t.Fetch().Word? {
      DecodeDecoded(t.Fetch().w);
      ExecValid(t.Fetch().s, Decode(t.Fetch().w));
    }
  }

  // ---------------------------------------------------------------- runs

  /** The loop in Run: n cycles, fewer if one of them stops the run. */
  function RunCycles(m: Machine, n: nat): (r: Step<Machine>)
    requires m.Valid()
    ensures !r.Stuck? ==> r.s.Valid()
    decreases n
  {
    if n == 0 then Continue(m)
    else
      CycleValid(m);
      match m.Cycle()
      case Continue(m') => RunCycles(m', n - 1)
      case stop => stop
  }

  /** The instruction writes one of these special registers. */
  predicate WritesSpr(m: Machine, x: Instr, regs: set<Spr>)
    requires m.Valid() && Decoded(x)
  {
    x.Mtspr? && SprAt(SprAddress(m.r.gpr[x.a], x.k)) in regs
  }

  /** No instruction of the next n cycles writes one of these special registers. */
  predicate Untouched(m: Machine, n: nat, regs: set<Spr>)
    requires m.Valid()
    decreases n
  {
    n > 0 ==>
      var t := m.(r := m.r.Ticked());
      TickedValid(m);
      FetchKeeps(t);
      && (!t.r.TickRaises() && t.Fetch().Word? ==>
            (DecodeDecoded(t.Fetch().w); !WritesSpr(t.Fetch().s, Decode(t.Fetch().w), regs)))
      && (m.Cycle().Continue? ==> (CycleValid(m); Untouched(m.Cycle().s, n - 1, regs)))
  }

  lemma UntouchedNext(m: Machine, n: nat, regs: set<Spr>)
    requires m.Valid() && n > 0 && Untouched(m, n, regs)
    ensures Untouched(m, 1, regs)
    ensures m.Cycle().Continue? ==> m.Cycle().s.Valid() && Untouched(m.Cycle().s, n - 1, regs)
  {
    CycleValid(m);
    hide Machine.Cycle, Machine.Valid, Machine.Fetch, Decode, Decoded, WritesSpr, Regs.Ticked, Regs.TickRaises;
  }

  /** A run of j + k cycles is a run of j and, if nothing ends it, one of k. */
  lemma {:induction false} RunSplit(m: Machine, j: nat, k: nat)
    requires m.Valid()
    ensures RunCycles(m, j + k) == match RunCycles(m, j) case Continue(s) => RunCycles(s, k) case stop => stop
    decreases j
  {
    hide Machine.Cycle, Machine.Valid;
    if j > 0 {
      CycleValid(m);
      if m.Cycle().Continue? { RunSplit(m.Cycle().s, j - 1, k); }
    }
  }

  lemma CheckValid(m: Machine)
    requires m.Valid()
    ensures m.CheckInterrupts().Valid()
  {
  }

  /** Run: sample the interrupts, then n cycles. */
  function MachineRun(m: Machine, n: nat): (r: Step<Machine>)
    requires m.Valid()
    ensures !r.Stuck? ==> r.s.Valid()
  {
    CheckValid(m);
    RunCycles(m.CheckInterrupts(), n)
  }
}
