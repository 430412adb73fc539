/** Which event enters which handler (simctty/exception.h; OpenRISC 1000 Architecture Manual 1.0,
    chapter 6): the handler's address and the recorded effective address, from the registers, the
    TLB bits and the address map as numbers. */
module Causes {
  import opened Words
  import opened Exceptions
  import opened Memory
  import opened Uart
  import opened Bus
  import opened Translation
  import opened Isa
  import opened Registers
  import opened Machine
  import opened Refinement
  import opened Runs
  import opened Restart
  import opened Permissions
  import opened Effects
  import opened Specials

  /** The handler at this address has been entered: registers, memory and devices untouched, the
      supervisor mode on and everything that can interrupt or translate off. */
  predicate Entered(m: Machine, handler: nat, s: Machine) {
    && s.pc == handler && !s.slot && s.r.sr == 0x8001 && s.r.gpr == m.r.gpr && s.bus == m.bus
    && !s.immu.enabled && !s.dmmu.enabled
  }

  lemma ThrowEnters(m: Machine, e: Exception, ea: uint32)
    ensures Entered(m, Vector(e), m.Throw(e, ea))
    ensures m.Throw(e, ea).r.eear == if SetsEear(e) then ea else m.r.eear
  {
    hide Vector, SetsEear, WithDsx;
  }

  /** No device answers there: RAM takes every access, the serial device bytes. */
  predicate Unanswered(phy: nat, size: nat) {
    phy >= 0x200_0000 && !(size == 1 && 0x9000_0000 <= phy <= 0x9000_0100)
  }

  /** The physical address behind a permitted one. */
  function Behind(tlb: Tlb, on: bool, a: uint32): nat
    requires tlb.Valid()
  {
    if on then EntryOf(tlb, a) / 0x2000 * 0x2000 + a % 0x2000 else a
  }

  /** The handler that an access of this size enters, 0 if none; `own` is the weight of the bit that
      lets the user make it, `more` that of the bit that lets only the supervisor. */
  function AccessHandler(m: Machine, a: uint32, size: nat, own: nat, more: nat): nat
    requires m.Valid() && own > 0 && more > 0
  {
    var on := m.r.sr / 0x20 % 2 == 1;
    var tr := EntryOf(m.dmmu.tlb, a);
    if on && !Tagged(m.dmmu.tlb, a) then 0x900
    else if on && !Has(tr, own) && !(m.r.sr % 2 == 1 && Has(tr, more)) then 0x300
    else if Unanswered(Behind(m.dmmu.tlb, on, a), size) then 0x200
    else 0
  }

  /** What an access is answered with: which exception, by its handler's address. */
  predicate Answered(reply: Reply, handler: nat) {
    (handler == 0 <==> !reply.Fault?) && (handler != 0 ==> reply.Fault? && Vector(reply.exception) == handler
                                                           && SetsEear(reply.exception))
  }

  lemma DataAccess(m: Machine, a: uint32, size: nat, own: nat, more: nat, write: bool)
    requires m.Valid() && size in {1, 2, 4}
    requires if write then own == 0x80 && more == 0x200 else own == 0x40 && more == 0x100
    ensures var t := Translate(m.dmmu.tlb, m.dmmu.enabled, DataMmu, a, m.r.Supervisor(), write);
            match t
            case Missed(e) => AccessHandler(m, a, size, own, more) == Vector(e) && Vector(e) > 0 && SetsEear(e)
            case Mapped(phy) => AccessHandler(m, a, size, own, more) == if Unanswered(phy, size) then 0x200 else 0
  {
    var tlb := m.dmmu.tlb;
    var on, sm := m.dmmu.enabled, m.r.Supervisor();
    assert on == (m.r.sr / 0x20 % 2 == 1) && sm == (m.r.sr % 2 == 1);
    var t := Translate(tlb, on, DataMmu, a, sm, write);
    if !on {
      OffMapsItself(tlb, DataMmu, a, sm, write);
    } else if !Tagged(tlb, a) {
      UntaggedMisses(tlb, a, sm, write);
    } else {
      TaggedMapsOrFaults(tlb, DataMmu, a, sm, write);
      MapsExactly(tlb, a);
    }
    hide Translate, Tagged, EntryOf, Has, Bit, Unanswered, Machine.Valid, Regs.Supervisor;
  }

  lemma LoadAnswered(bus: BusState, phy: uint32, size: nat)
    requires bus.Valid() && size in {1, 2, 4}
    ensures Answered(BusLoad(bus, size, phy), if Unanswered(phy, size) then 0x200 else 0)
  {
    hide UartState.Load, Get8, Get16, Get32;
  }

  lemma StoreAnswered(bus: BusState, phy: uint32, size: nat, v: uint32)
    requires bus.Valid() && size in {1, 2, 4}
    ensures Answered(BusStore(bus, size, phy, v), if Unanswered(phy, size) then 0x200 else 0)
  {
    hide UartState.Store, Put;
  }

  /** A load, unless it is a word on the remembered page of which this mode may not read. */
  lemma LoadReplies(m: Machine, a: uint32, size: nat)
    requires m.Valid() && size in {1, 2, 4} && CacheSound(m.dmmu, m.r.Supervisor())
    requires size == 4 && m.dmmu.cache.Hits(a) ==> m.dmmu.Map(a, m.r.Supervisor(), false).Mapped?
    ensures Answered(m.dmmu.Load(m.bus, size, a, m.r.Supervisor()),
                     if size == 2 && a % 2 != 0 then 0x600 else AccessHandler(m, a, size, 0x40, 0x100))
  {
    var sm := m.r.Supervisor();
    CachedLoadExact(m.dmmu, m.bus, size, a, sm);
    if m.dmmu.cache.Hits(a) { HitReadable(m.dmmu, a, sm); }
    DataAccess(m, a, size, 0x40, 0x100, false);
    var t := Translate(m.dmmu.tlb, m.dmmu.enabled, DataMmu, a, sm, false);
    if t.Mapped? { LoadAnswered(m.bus, t.phy, size); }
    hide Translate, AccessHandler, BusLoad, MmuState.Load, Unanswered, CacheSound, Tlb.Entry, Permits,
         PageCache.Hits, Regs.Supervisor;
  }

  lemma HitReadable(u: MmuState, a: uint32, sm: bool)
    requires u.Valid() && CacheSound(u, sm) && u.kind == DataMmu && u.cache.Hits(a)
    ensures u.Map(a, sm, false).Mapped? ==> Permits(DataMmu, u.tlb.Entry(a), sm, false)
  {
  }

  /** A store, unless it is the halfword that the simulator leaves undefined. */
  lemma StoreReplies(m: Machine, a: uint32, size: nat, v: uint32)
    requires m.Valid() && size in {1, 2, 4}
    requires a % size == 0 && size == 2 && a < 0x200_0000 ==> AccessHandler(m, a, size, 0x80, 0x200) != 0x200
    ensures Answered(m.dmmu.Store(m.bus, size, a, v, m.r.Supervisor()),
                     if a % size != 0 then 0x600 else AccessHandler(m, a, size, 0x80, 0x200))
  {
    var sm := m.r.Supervisor();
    DataAccess(m, a, size, 0x80, 0x200, true);
    var t := Translate(m.dmmu.tlb, m.dmmu.enabled, DataMmu, a, sm, true);
    if t.Mapped? { StoreAnswered(m.bus, t.phy, size, v); }
    hide Translate, AccessHandler, BusStore, Regs.Supervisor;
  }

  // ---------------------------------------------------------------- at the instructions

  /** The instruction enters this handler and records the address, or if it is 0 enters none: it is
      undefined or completes. */
  predicate Enters(m: Machine, x: Instr, handler: nat, ea: uint32)
    requires m.Valid() && Decoded(x)
  {
    if handler == 0 then m.Exec(x).Continue? ==> Completed(m, m.Exec(x), m.Exec(x).s)
    else m.Exec(x).Continue? && Entered(m, handler, m.Exec(x).s) && m.Exec(x).s.r.eear == ea
  }

  lemma LoadInstrEnters(m: Machine, load: LoadKind, d: nat, ea: uint32, handler: nat)
    requires m.Valid() && d < GPRS && Answered(m.dmmu.Load(m.bus, load.Width(), ea, m.r.Supervisor()), handler)
    ensures var step := m.LoadInstr(load, d, ea);
            if handler == 0 then step.Continue? ==> Completed(m, step, step.s)
            else step.Continue? && Entered(m, handler, step.s) && step.s.r.eear == ea
  {
    var reply := m.dmmu.Load(m.bus, load.Width(), ea, m.r.Supervisor());
    var n := m.(dmmu := m.dmmu.AfterLoad(load.Width(), ea, m.r.Supervisor()));
    ThrowEntersLike(m, reply, n, ea);
    hide MmuState.Load, MmuState.AfterLoad, Vector, SetsEear, LoadKind.Extend, Machine.Throw, Machine.Finish,
         Regs.Supervisor;
    if reply.Value? {
      FinishLeaves(n.(bus := reply.bus), d, load.Extend(reply.value));
      FollowingAlike(m, n.(bus := reply.bus));
    }
  }

  lemma FollowingAlike(m: Machine, n: Machine)
    requires n.slot == m.slot && n.target == m.target && n.pc == m.pc
    ensures Following(n) == Following(m)
  {
  }

  /** Loads: an odd halfword enters 0x600, a page without its tag 0x900, one that the bits of its
      entry do not let this mode read 0x300, an address without a device 0x200; nothing else enters
      a handler. Excepted is a word on the remembered page of which this mode may not read. */
  lemma LoadEnters(m: Machine, x: Instr, ea: uint32, size: nat)
    requires m.Valid() && Decoded(x) && x.Load? && CacheSound(m.dmmu, m.r.Supervisor())
    requires size == if x.load.Lwz? then 4 else if x.load.Lhz? || x.load.Lhs? then 2 else 1
    requires ea == (m.r.gpr[x.a] + x.i) % 0x1_0000_0000
    requires size == 4 && m.dmmu.cache.Hits(ea) ==> m.dmmu.Map(ea, m.r.Supervisor(), false).Mapped?
    ensures Enters(m, x, if size == 2 && ea % 2 != 0 then 0x600 else AccessHandler(m, ea, size, 0x40, 0x100), ea)
  {
    hide *;
    LoadReplies(m, ea, size);
    LoadExec(m, x);
    LoadAddress(m, x, ea, size);
    LoadInstrEnters(m, x.load, x.d, ea,
                    if size == 2 && ea % 2 != 0 then 0x600 else AccessHandler(m, ea, size, 0x40, 0x100));
    EntersBy(m, x, if size == 2 && ea % 2 != 0 then 0x600 else AccessHandler(m, ea, size, 0x40, 0x100), ea);
  }

  lemma LoadAddress(m: Machine, x: Instr, ea: uint32, size: nat)
    requires m.Valid() && Decoded(x) && x.Load? && ea == (m.r.gpr[x.a] + x.i) % 0x1_0000_0000
    requires size == if x.load.Lwz? then 4 else if x.load.Lhz? || x.load.Lhs? then 2 else 1
    ensures ea == Wrap(m.r.gpr[x.a] + x.i) && size == x.load.Width() && x.d < GPRS
  {
  }

  lemma EntersBy(m: Machine, x: Instr, handler: nat, ea: uint32)
    requires m.Valid() && Decoded(x)
    requires var step := m.Exec(x);
             if handler == 0 then step.Continue? ==> Completed(m, step, step.s)
             else step.Continue? && Entered(m, handler, step.s) && step.s.r.eear == ea
    ensures Enters(m, x, handler, ea)
  {
    hide Machine.Exec, Entered, Completed, Machine.Valid, Decoded;
  }

  lemma ThrowEntersLike(m: Machine, reply: Reply, n: Machine, ea: uint32)
    requires n == m.(dmmu := n.dmmu)
    ensures reply.Fault? ==> Entered(m, Vector(reply.exception), n.Throw(reply.exception, ea))
    ensures reply.Fault? && SetsEear(reply.exception) ==> n.Throw(reply.exception, ea).r.eear == ea
  {
    if reply.Fault? { ThrowEnters(n, reply.exception, ea); }
    hide Machine.Throw, Vector, SetsEear;
  }

  /** Stores: any unaligned address enters 0x600; the rest is as for loads, by the bits for writing.
      Excepted is the halfword that the simulator leaves undefined. */
  lemma StoreEnters(m: Machine, x: Instr, ea: uint32)
    requires m.Valid() && Decoded(x) && x.Store?
    requires ea == (m.r.gpr[x.a] + x.i) % 0x1_0000_0000
    requires ea % x.width == 0 && x.width == 2 && ea < 0x200_0000
             ==> AccessHandler(m, ea, x.width, 0x80, 0x200) != 0x200
    ensures Enters(m, x, if ea % x.width != 0 then 0x600 else AccessHandler(m, ea, x.width, 0x80, 0x200), ea)
  {
    StoreReplies(m, ea, x.width, m.r.gpr[x.b]);
    StoreExec(m, x);
    hide AccessHandler, Machine.Exec, MmuState.Store, MmuState.AfterStore, Vector, SetsEear, Machine.Throw, Bit, Wrap;
    ThrowEntersLike(m, m.dmmu.Store(m.bus, x.width, ea, m.r.gpr[x.b], m.r.Supervisor()),
                    m.(dmmu := m.dmmu.AfterStore(x.width, ea, m.r.Supervisor())), ea);
  }

  lemma IllegalEnters(m: Machine)
    requires m.Valid()
    ensures Enters(m, Illegal, 0x700, m.pc)
  {
    ThrowEnters(m, IllegalInstruction, m.pc);
    hide Machine.Throw;
  }

  /** l.sys keeps EEAR and saves where to go on, in a slot where it is itself. */
  lemma SysEnters(m: Machine, k: uint16)
    requires m.Valid()
    ensures Enters(m, Sys(k), 0xc00, m.r.eear)
    ensures m.Exec(Sys(k)).s.r.epcr == if m.slot then m.pc else (m.pc + 4) % 0x1_0000_0000
  {
    ThrowEnters(m.(pc := Wrap(m.pc + 4)), SystemCall, 0);
  }

  /** l.mtspr: a write after which a timer interrupt is due enters 0x500 at its own address, any
      other completes. */
  lemma WriteEnters(m: Machine, x: Instr)
    requires m.Valid() && Decoded(x) && x.Mtspr?
    requires m.WriteSpr(SprAddress(m.r.gpr[x.a], x.k), m.r.gpr[x.b]).Some?
    ensures var t := m.WriteSpr(SprAddress(m.r.gpr[x.a], x.k), m.r.gpr[x.b]).value;
            Enters(m, x, if t.r.ttmr / 0x1000_0000 % 2 == 1 && t.r.sr / 2 % 2 == 1 then 0x500 else 0, t.r.eear)
  {
    var address := SprAddress(m.r.gpr[x.a], x.k);
    MtsprExec(m, x);
    WriteKeepsPlace(m, address, m.r.gpr[x.b]);
    var t := m.WriteSpr(address, m.r.gpr[x.b]).value;
    ThrowEnters(t, TickTimerInterrupt, 0);
    TimerEnable(t.r);
    hide Machine.Exec, Machine.WriteSpr, Machine.Throw, SprAddress, Regs.TimerDue, Machine.Valid, Decoded;
  }

  lemma WriteKeepsPlace(m: Machine, address: uint16, v: uint32)
    requires m.Valid() && m.WriteSpr(address, v).Some?
    ensures var t := m.WriteSpr(address, v).value;
            t.pc == m.pc && t.slot == m.slot && t.target == m.target && t.r.gpr == m.r.gpr && t.bus == m.bus
  {
    hide SprAt, Bit;
  }

  // ---------------------------------------------------------------- at the cycles

  /** The handler that the fetch at the program counter enters, 0 if none. */
  function FetchHandler(m: Machine): nat
    requires m.Valid()
  {
    if m.r.sr / 0x40 % 2 == 0 then 0
    else if !Tagged(m.immu.tlb, m.pc) then 0xa00
    else if !Has(EntryOf(m.immu.tlb, m.pc), 0x40) && !Has(EntryOf(m.immu.tlb, m.pc), 0x80) then 0x400
    else 0
  }

  /** A cycle ends the run and enters this handler. */
  predicate CycleEnters(m: Machine, handler: nat, eear: uint32)
    requires m.Valid()
  {
    m.Cycle().Stopped? && m.Cycle().ok && Entered(m, handler, m.Cycle().s) && m.Cycle().s.r.eear == eear
  }

  /** The tick exception comes first and enters 0x500. */
  lemma TickEnters(m: Machine)
    requires m.Valid() && m.r.Ticked().TickRaises()
    ensures CycleEnters(m, 0x500, m.r.eear)
  {
    ThrowEnters(m.(r := m.r.Ticked()), TickTimerInterrupt, 0);
    hide Machine.Throw, Bit, Wrap, WithPending;
  }

  lemma FreshFetchFaults(m: Machine)
    requires m.Valid()
    ensures var f := Abs(m).Fetch();
            && (FetchHandler(m) == 0 <==> !f.FetchFault?)
            && (f.FetchFault? ==> Vector(f.exception) == FetchHandler(m) && SetsEear(f.exception))
  {
    var sm := m.r.Supervisor();
    if m.r.sr / 0x40 % 2 == 0 {
      OffMapsItself(m.immu.tlb, InstructionMmu, m.pc, sm, false);
    } else if !Tagged(m.immu.tlb, m.pc) {
      UntaggedMisses(m.immu.tlb, m.pc, sm, false);
    } else {
      TaggedMapsOrFaults(m.immu.tlb, InstructionMmu, m.pc, sm, false);
      MapsExactly(m.immu.tlb, m.pc);
    }
    hide Translate, Tagged, EntryOf, Has, InFrame, BusLoad, Regs.Supervisor;
  }

  lemma CycleOfFault(m: Machine, t: Machine)
    requires m.Valid() && t == m.(r := m.r.Ticked()) && t.Valid() && !t.r.TickRaises() && t.Fetch().FetchFault?
    ensures m.Cycle() == Stopped(t.Fetch().s.Throw(t.Fetch().exception, t.Fetch().s.pc), true)
  {
    hide Machine.Fetch, Machine.Throw, Machine.Exec, Regs.Ticked, Regs.TickRaises;
  }

  lemma SameEntry(t: Machine, s: Machine, e: Exception)
    requires s == t.(immu := s.immu) && SetsEear(e)
    ensures Entered(t, Vector(e), s.Throw(e, s.pc)) && s.Throw(e, s.pc).r.eear == t.pc
  {
    ThrowEnters(s, e, s.pc);
    hide Machine.Throw, Vector, SetsEear;
  }

  /** Then the fetch, remembered page or not: a page without its tag enters 0xa00, one whose entry
      has neither of two bits 0x400, and nothing else stops the fetch. */
  lemma FetchEnters(m: Machine)
    requires m.Valid() && Coherent(m) && !m.r.Ticked().TickRaises()
    ensures FetchHandler(m) != 0 ==> CycleEnters(m, FetchHandler(m), m.pc)
    ensures FetchHandler(m) == 0 ==> !m.(r := m.r.Ticked()).Fetch().FetchFault?
  {
    hide *;
    var t := m.(r := m.r.Ticked());
    TickRefines(m);
    TickOnly(m.r);
    FetchRefines(t);
    FreshFetchFaults(t);
    SameHandler(m, t);
    FaultAlike(t);
    if t.Fetch().FetchFault? {
      CycleOfFault(m, t);
      FetchFaultState(t);
      SameEntry(t, t.Fetch().s, t.Fetch().exception);
      EnteredAlike(m, t, FetchHandler(m));
    }
  }

  lemma FaultAlike(t: Machine)
    requires t.Valid() && AbsFetched(t.Fetch()) == Abs(t).Fetch()
    ensures t.Fetch().FetchFault? <==> Abs(t).Fetch().FetchFault?
    ensures t.Fetch().FetchFault? ==> t.Fetch().exception == Abs(t).Fetch().exception
  {
    hide Machine.Fetch, Abs;
  }

  lemma SameHandler(m: Machine, t: Machine)
    requires m.Valid() && t.Valid() && t == m.(r := t.r) && t.r == m.r.(ttmr := t.r.ttmr, ttcr := t.r.ttcr)
    ensures FetchHandler(t) == FetchHandler(m)
  {
    hide Tagged, EntryOf, Has;
  }

  lemma EnteredAlike(m: Machine, t: Machine, handler: nat)
    requires m.Valid() && t == m.(r := t.r) && t.r == m.r.(ttmr := t.r.ttmr, ttcr := t.r.ttcr)
    requires m.Cycle().Stopped? && m.Cycle().ok && Entered(t, handler, m.Cycle().s) && m.Cycle().s.r.eear == m.pc
    ensures CycleEnters(m, handler, m.pc)
  {
    hide Machine.Cycle;
  }

  lemma FreshFetchMaps(m: Machine)
    requires m.Valid() && FetchHandler(m) == 0
    ensures var t := Translate(m.immu.tlb, Bit(m.r.sr, IME), InstructionMmu, m.pc, m.r.Supervisor(), false);
            && t == Mapped(Behind(m.immu.tlb, m.r.sr / 0x40 % 2 == 1, m.pc))
            && (m.pc % 4 == 0 ==> t.phy % 4 == 0)
  {
    var sm := m.r.Supervisor();
    FrameJoin(m.immu.tlb.Entry(m.pc), m.pc);
    if m.r.sr / 0x40 % 2 == 0 {
      OffMapsItself(m.immu.tlb, InstructionMmu, m.pc, sm, false);
    } else {
      TaggedMapsOrFaults(m.immu.tlb, InstructionMmu, m.pc, sm, false);
      MapsExactly(m.immu.tlb, m.pc);
    }
    hide Tagged, Has, PageOf, Permits, Tlb.Matches, Regs.Supervisor;
  }

  /** A word load from the bus, for the fetch that ignores its failure. */
  lemma WordReads(bus: BusState, phy: uint32)
    requires bus.Valid() && phy % 4 == 0
    ensures |bus.mem| == 0x200_0000 && (phy < 0x200_0000 ==> phy + 4 <= 0x200_0000)
    ensures if phy < 0x200_0000 then BusLoad(bus, 4, phy) == Value(LatestNumber(bus.mem, [], 4, phy), bus)
            else BusLoad(bus, 4, phy).Fault?
  {
    AlignedEnd(if phy < RAM_SIZE then phy else 0, 4);
    if phy < RAM_SIZE { NumberIsValue(bus.mem, [], 4, phy); }
    hide LatestNumber;
  }

  lemma FreshFetchReads(m: Machine)
    requires m.Valid() && FetchHandler(m) == 0 && m.pc % 4 == 0
    ensures var phy := Behind(m.immu.tlb, m.r.sr / 0x40 % 2 == 1, m.pc);
            && phy < 0x1_0000_0000 && |m.bus.mem| == 0x200_0000 && (phy < 0x200_0000 ==> phy + 4 <= 0x200_0000)
            && Abs(m).Fetch().Word?
            && Abs(m).Fetch().w == if phy < 0x200_0000 then LatestNumber(m.bus.mem, [], 4, phy) else 0
  {
    FreshFetchMaps(m);
    WordReads(m.bus, Behind(m.immu.tlb, m.r.sr / 0x40 % 2 == 1, m.pc));
    hide FetchHandler, Translate, Behind, BusLoad, LatestNumber, Bit, Regs.Supervisor;
  }

  /** What a fetch that enters no handler reads: in RAM the four bytes at the physical address, the
      first one counting most; outside RAM a zero word, whatever is there. */
  lemma FetchReads(m: Machine)
    requires m.Valid() && Coherent(m) && FetchHandler(m) == 0 && m.pc % 4 == 0
    ensures var phy := Behind(m.immu.tlb, m.r.sr / 0x40 % 2 == 1, m.pc);
            && |m.bus.mem| == 0x200_0000 && (phy < 0x200_0000 ==> phy + 4 <= 0x200_0000)
            && m.Fetch().Word?
            && m.Fetch().w == if phy < 0x200_0000 then LatestNumber(m.bus.mem, [], 4, phy) else 0
  {
    FetchRefines(m);
    FreshFetchReads(m);
    WordAlike(m);
    hide Machine.Valid, Coherent, FetchHandler, Machine.Fetch, Behind, LatestNumber, Abs, AbsFetched;
  }

  lemma WordAlike(t: Machine)
    requires t.Valid() && AbsFetched(t.Fetch()) == Abs(t).Fetch()
    ensures t.Fetch().Word? <==> Abs(t).Fetch().Word?
    ensures t.Fetch().Word? ==> t.Fetch().w == Abs(t).Fetch().w
  {
    hide Machine.Fetch, Abs;
  }

  /** An interrupt that is due enters 0x800. */
  lemma InterruptEnters(m: Machine)
    requires m.Valid() && m.r.Sampled(m.bus.Interrupts()).InterruptDue()
    ensures Entered(m, 0x800, m.CheckInterrupts()) && m.CheckInterrupts().r.eear == m.r.eear
  {
    ThrowEnters(m.(r := m.r.Sampled(m.bus.Interrupts())), ExternalInterrupt, 0);
    hide Machine.Throw, Regs.InterruptDue, BusState.Interrupts;
  }
}
