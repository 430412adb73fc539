/** Precise, restartable exceptions (simctty/cpu.cc): what a fault leaves behind, and that
    returning from it resumes as if it had not happened, delay slot included. */
module Restart {
  import opened Words
  import opened Exceptions
  import opened Translation
  import opened Isa
  import opened Registers
  import opened Machine
  import opened Refinement
  import opened Runs

  /** The address at which a fault of the current instruction is to be restarted: its own, or
      in a delay slot that of the jump before it. */
  function RestartPc(m: Machine): uint32 { if m.slot then Wrap(m.pc - 4) else m.pc }

  /** m' has taken exception e from m: registers, memory and devices untouched. */
  predicate Taken(m: Machine, e: Exception, ea: uint32, m': Machine) {
    && m'.r.gpr == m.r.gpr && m'.bus == m.bus
    && m'.pc == Vector(e) && !m'.slot && m'.r.sr == RESET_SR
    && m'.r.epcr == RestartPc(m)
    && m'.r.esr == (if m.slot then WithDsx(m.r.sr) else m.r.sr)
    && (SetsEear(e) ==> m'.r.eear == ea)
  }

  lemma ThrowTakes(m: Machine, e: Exception, ea: uint32)
    ensures Taken(m, e, ea, m.Throw(e, ea))
  {
  }

  /** The exception an instruction raises in place, if any, with its effective address. */
  function FaultOf(m: Machine, x: Instr): Option<(Exception, uint32)>
    requires m.Valid() && Decoded(x)
  {
    match x
    case Load(load, _, a, i) =>
      var ea := Wrap(m.r.gpr[a] + i);
      (match m.dmmu.Load(m.bus, load.Width(), ea, m.r.Supervisor()) case Fault(e) => Some((e, ea)) case _ => None)
    case Store(width, a, b, i) =>
      var ea := Wrap(m.r.gpr[a] + i);
      (match m.dmmu.Store(m.bus, width, ea, m.r.gpr[b], m.r.Supervisor()) case Fault(e) => Some((e, ea)) case _ => None)
    case Illegal => Some((IllegalInstruction, m.pc))
    case _ => None
  }

  /** Every faulting load, store or illegal instruction is precise. */
  lemma FaultIsPrecise(m: Machine, x: Instr)
    requires m.Valid() && Decoded(x) && FaultOf(m, x).Some?
    ensures m.Exec(x).Continue? && Taken(m, FaultOf(m, x).value.0, FaultOf(m, x).value.1, m.Exec(x).s)
  {
    hide MmuState.Load, MmuState.Store, MmuState.AfterLoad, MmuState.AfterStore, Machine.Throw, Taken;
    match x
    case Load(load, d, a, i) =>
      var ea := Wrap(m.r.gpr[a] + i);
      LoadFaultTaken(m, m.(dmmu := m.dmmu.AfterLoad(load.Width(), ea, m.r.Supervisor())), FaultOf(m, x).value.0, ea);
    case Store(width, a, b, i) =>
      var ea := Wrap(m.r.gpr[a] + i);
      LoadFaultTaken(m, m.(dmmu := m.dmmu.AfterStore(width, ea, m.r.Supervisor())), FaultOf(m, x).value.0, ea);
    case Illegal => ThrowTakes(m, IllegalInstruction, m.pc);
    case _ =>
  }

  lemma LoadFaultTaken(m: Machine, m': Machine, e: Exception, ea: uint32)
    requires m' == m.(dmmu := m'.dmmu)
    ensures Taken(m, e, ea, m'.Throw(e, ea))
  {
  }

  /** A fetch fault, a tick of the timer and an external interrupt are as precise. */
  lemma FetchFaultIsPrecise(m: Machine)
    requires m.Valid() && !m.r.Ticked().TickRaises() && m.(r := m.r.Ticked()).Fetch().FetchFault?
    ensures var t := m.(r := m.r.Ticked());
            m.Cycle().Stopped? && m.Cycle().ok && Taken(t, t.Fetch().exception, t.pc, m.Cycle().s)
  {
    var t := m.(r := m.r.Ticked());
    FetchFaultState(t);
    hide Machine.Fetch, Machine.Throw, Taken, Regs.Ticked, Regs.TickRaises;
    ThrowTakes(t.Fetch().s, t.Fetch().exception, t.pc);
    TakenAlike(t, t.Fetch().s, t.Fetch().exception, t.pc, m.Cycle().s);
  }

  lemma FetchFaultState(t: Machine)
    requires t.Valid()
    ensures t.Fetch().FetchFault? ==> t.Fetch().s == t.(immu := t.Fetch().s.immu)
  {
    hide MmuState.Map, MmuState.AfterMap, MmuState.Load, PageCache.Hits;
  }

  lemma TakenAlike(m: Machine, n: Machine, e: Exception, ea: uint32, m': Machine)
    requires n == m.(immu := n.immu) && Taken(n, e, ea, m')
    ensures Taken(m, e, ea, m')
  {
  }

  lemma InterruptIsPrecise(m: Machine)
    requires m.Valid() && m.r.Sampled(m.bus.Interrupts()).InterruptDue()
    ensures Taken(m, ExternalInterrupt, 0, m.CheckInterrupts())
  {
    hide WithDsx, Bit;
  }

  lemma TimerIsPrecise(m: Machine)
    requires m.Valid() && m.r.Ticked().TickRaises()
    ensures m.Cycle().Stopped? && m.Cycle().ok && Taken(m, TickTimerInterrupt, 0, m.Cycle().s)
  {
    hide WithDsx, Bit, Wrap;
  }

  // ---------------------------------------------------------------- the slot exception bit

  lemma DsxOnly(sr: uint32)
    ensures Bit(WithDsx(sr), DSX) && Bit(WithDsx(sr), F) == Bit(sr, F)
    ensures WithDsx(sr) == sr <==> Bit(sr, DSX)
  {
    var q, p, l := sr / 0x4000, sr / DSX % 2, sr % DSX;
    assert sr == 0x4000 * q + DSX * p + l;
    var w := WithDsx(sr);
    assert w == 0x4000 * q + DSX + l;
    QuotientUnique(w, DSX, 2 * q + 1, l);
    FlagBelowDsx(sr, 2 * q + p, l);
    FlagBelowDsx(w, 2 * q + 1, l);
  }

  lemma FlagBelowDsx(x: uint32, h: nat, l: nat)
    requires x == DSX * h + l && l < DSX
    ensures Bit(x, F) == Bit(l, F)
  {
    QuotientUnique(x, F, 16 * h + l / F, l % F);
  }

  /** The saved bit tells a slot exception from any other exactly as long as SR does not carry
      the bit already; a return from a slot exception puts it there. */
  lemma DsxReport(m: Machine, e: Exception, ea: uint32)
    ensures Bit(m.Throw(e, ea).r.esr, DSX) <==> m.slot || Bit(m.r.sr, DSX)
  {
    DsxOnly(m.r.sr);
    hide WithDsx, Bit;
  }

  // ---------------------------------------------------------------- returning

  /** What a handler has to preserve; memory, TLBs and every other register are its own. */
  predicate HandlerKept(t: Machine, h: Machine) {
    h.r.gpr == t.r.gpr && h.r.epcr == t.r.epcr && h.r.esr == t.r.esr
  }

  /** Outside a slot: after any exception and any such handler, l.rfe resumes exactly. */
  lemma ResumePlain(m: Machine, e: Exception, ea: uint32, h: Machine)
    requires m.Valid() && !m.slot && h.Valid() && HandlerKept(m.Throw(e, ea), h)
    ensures h.Exec(Rfe).Continue?
    ensures var b := h.Exec(Rfe).s;
            b.pc == m.pc && !b.slot && b.r.gpr == m.r.gpr && b.r.sr == m.r.sr
  {
    hide Bit, WithDsx;
  }

  /** In the slot of a jump j: after any exception and any such handler, l.rfe leads back to j,
      and running j again restores the registers, program counter, slot and target exactly, and
      SR up to DSX: exactly too if DSX was set. */
  lemma ResumeInSlot(m0: Machine, j: Instr, e: Exception, ea: uint32, h: Machine)
    requires m0.Valid() && Decoded(j) && Jumps(Abs(m0), j)
    requires h.Valid() && m0.Exec(j).Continue? && HandlerKept(m0.Exec(j).s.Throw(e, ea), h)
    ensures h.Exec(Rfe).Continue? && h.Exec(Rfe).s.Valid() && h.Exec(Rfe).s.pc == m0.pc && !h.Exec(Rfe).s.slot
    ensures h.Exec(Rfe).s.Exec(j).Continue?
    ensures var m := m0.Exec(j).s;
            var c := h.Exec(Rfe).s.Exec(j).s;
            && m.slot && c.slot && c.pc == m.pc && c.target == m.target && c.r.gpr == m.r.gpr
            && c.r.sr == WithDsx(m.r.sr) && (c.r.sr == m.r.sr <==> Bit(m.r.sr, DSX))
  {
    var m := m0.Exec(j).s;
    JumpSlot(m0, j);
    RfeState(h);
    DsxOnly(m0.r.sr);
    BackOne(m0.pc);
    var b := h.Exec(Rfe).s;
    assert b.r.gpr == m.r.gpr && b.pc == m0.pc && b.r.sr == WithDsx(m0.r.sr);
    JumpAgain(m0, b, j);
  }

  /** After l.sys and any handler that keeps EPCR and ESR, l.rfe resumes at the instruction that
      was to follow exactly if l.sys was not in a slot (or its jump led to l.sys itself): in a
      slot it resumes at l.sys, and the jump is lost. */
  lemma SystemCallReturns(m: Machine, k: uint16, h: Machine)
    requires m.Valid() && h.Valid() && m.Exec(Sys(k)).Continue?
    requires h.r.epcr == m.Exec(Sys(k)).s.r.epcr && h.r.esr == m.Exec(Sys(k)).s.r.esr
    ensures h.Exec(Rfe).Continue?
    ensures var b := h.Exec(Rfe).s;
            && !b.slot && b.pc == (if m.slot then m.pc else Wrap(m.pc + 4))
            && (b.pc == Abs(m).npc <==> !m.slot || m.target == m.pc)
            && b.r.sr == if m.slot then WithDsx(m.r.sr) else m.r.sr
  {
    BackOne(m.pc);
    hide Bit, WithDsx, Wrap;
  }

  lemma BackOne(pc: uint32)
    ensures Wrap(Wrap(pc + 4) - 4) == pc
  {
  }

  lemma RfeState(h: Machine)
    requires h.Valid()
    ensures h.Exec(Rfe).Continue?
    ensures var b := h.Exec(Rfe).s;
            b.Valid() && b.pc == h.r.epcr && !b.slot && b.r == h.r.(sr := h.r.esr)
  {
    hide Bit;
  }

  lemma JumpSlot(m0: Machine, j: Instr)
    requires m0.Valid() && Decoded(j) && Jumps(Abs(m0), j)
    ensures m0.Exec(j).Continue?
    ensures var m := m0.Exec(j).s;
            m.slot && m.pc == Wrap(m0.pc + 4) && m.r == m0.r.(gpr := m.r.gpr)
  {
    hide Bit;
  }

  /** Re-running a jump from its own address with the registers it left behind. */
  lemma JumpAgain(m0: Machine, b: Machine, j: Instr)
    requires m0.Valid() && b.Valid() && Decoded(j) && Jumps(Abs(m0), j)
    requires m0.Exec(j).Continue? && b.pc == m0.pc && b.r.gpr == m0.Exec(j).s.r.gpr && Bit(b.r.sr, F) == Bit(m0.r.sr, F)
    ensures b.Exec(j).Continue?
    ensures var m, c := m0.Exec(j).s, b.Exec(j).s;
            c.slot && c.pc == m.pc && c.target == m.target && c.r.gpr == m.r.gpr && c.r.sr == b.r.sr
  {
    hide Bit;
    match j
    case JumpLink(_) => assert b.r.gpr[9 := Wrap(m0.pc + 8)] == b.r.gpr;
    case JumpLinkReg(_) => assert b.r.gpr[9 := Wrap(m0.pc + 8)] == b.r.gpr;
    case _ =>
  }

  // ---------------------------------------------------------------- over whole cycles

  /** The cycle from m executes x: no tick exception, and the word fetched decodes to x. */
  predicate Executes(m: Machine, x: Instr)
    requires m.Valid()
  {
    TickedValid(m);
    var u := m.(r := m.r.Ticked());
    !u.r.TickRaises() && u.Fetch().Word? && Decode(u.Fetch().w) == x
  }

  /** s differs from m at most in the timer's registers and in what is cached for fetches. */
  predicate TickedAndFetched(m: Machine, s: Machine) {
    s == m.(r := m.r.(ttmr := s.r.ttmr, ttcr := s.r.ttcr), fetch := s.fetch, immu := s.immu) && s.Valid()
  }

  lemma ExecutesIs(m: Machine, x: Instr) returns (s: Machine)
    requires m.Valid() && Executes(m, x)
    ensures TickedAndFetched(m, s) && Decoded(x) && m.Cycle() == s.Exec(x)
  {
    var u := m.(r := m.r.Ticked());
    TickedValid(m);
    TickOnly(m.r);
    FetchKeeps(u);
    FetchOnly(u);
    s := u.Fetch().s;
    MachineCycle(m, u);
    hide Machine.Valid, Machine.Fetch, Machine.Exec, Decode, Decoded, Regs.Ticked, Regs.TickRaises;
  }

  lemma TickOnly(r: Regs)
    ensures r.Ticked() == r.(ttmr := r.Ticked().ttmr, ttcr := r.Ticked().ttcr)
  {
    hide Bit, WithPending, Wrap;
  }

  lemma FetchOnly(u: Machine)
    requires u.Valid()
    ensures var f := u.Fetch();
            !f.NoFetch? ==> f.s == u.(fetch := f.s.fetch, immu := f.s.immu)
  {
    hide MmuState.Map, MmuState.AfterMap, MmuState.Load, MmuState.AfterLoad, Machine.CachedWord, PageOf, PageCache.Hits;
  }

  /** The exception that the cycle from m takes, if any: of the tick, of the fetch, or of the
      instruction itself. */
  function CycleFault(m: Machine): Option<(Exception, uint32)>
    requires m.Valid()
  {
    TickedValid(m);
    var u := m.(r := m.r.Ticked());
    if u.r.TickRaises() then Some((TickTimerInterrupt, 0))
    else match u.Fetch()
      case NoFetch => None
      case FetchFault(e, _) => Some((e, m.pc))
      case Word(w, s) => FetchKeeps(u); DecodeDecoded(w); FaultOf(s, Decode(w))
  }

  /** Whichever it is, it is precise, and the run either goes on with the handler or returns true. */
  lemma CycleFaultTaken(m: Machine)
    requires m.Valid() && CycleFault(m).Some?
    ensures !m.Cycle().Stuck? && (m.Cycle().Stopped? ==> m.Cycle().ok)
    ensures Taken(m, CycleFault(m).value.0, CycleFault(m).value.1, m.Cycle().s)
  {
    TickedValid(m);
    var u := m.(r := m.r.Ticked());
    TickOnly(m.r);
    hide Machine.Valid, Machine.Fetch, Machine.Exec, Decode, Decoded, FaultOf, Taken, Machine.Throw, Regs.Ticked,
         Regs.TickRaises;
    if u.r.TickRaises() {
      TimerIsPrecise(m);
    } else if u.Fetch().FetchFault? {
      FetchFaultIsPrecise(m);
      SameTaken(m, u, u.Fetch().exception, m.pc, m.Cycle().s);
    } else {
      InstructionFaultTaken(m, u);
    }
  }

  lemma InstructionFaultTaken(m: Machine, u: Machine)
    requires m.Valid() && u == m.(r := m.r.Ticked()) && u.Valid() && !u.r.TickRaises() && u.Fetch().Word?
    requires CycleFault(m).Some?
    ensures m.Cycle().Continue? && Taken(m, CycleFault(m).value.0, CycleFault(m).value.1, m.Cycle().s)
  {
    var x := Decode(u.Fetch().w);
    var s := ExecutesIs(m, x);
    FetchKeeps(u);
    DecodeDecoded(u.Fetch().w);
    MachineCycle(m, u);
    hide Machine.Valid, Machine.Fetch, Machine.Exec, Decode, Decoded, FaultOf, Taken, Regs.Ticked, Regs.TickRaises;
    FetchOnly(u);
    TickOnly(m.r);
    var f := u.Fetch().s;
    FaultIsPrecise(f, x);
    SameTaken(m, f, FaultOf(f, x).value.0, FaultOf(f, x).value.1, f.Exec(x).s);
  }

  /** Ticking and fetching change nothing that taking an exception looks at. */
  lemma SameTaken(m: Machine, s: Machine, e: Exception, ea: uint32, t: Machine)
    requires s.r == m.r.(ttmr := s.r.ttmr, ttcr := s.r.ttcr) && s.pc == m.pc && s.slot == m.slot && s.bus == m.bus
    requires Taken(s, e, ea, t)
    ensures Taken(m, e, ea, t)
  {
    hide WithDsx, Wrap, Vector, SetsEear;
  }

  /** After any exception of a cycle and a handler of any number of cycles that keeps what it has
      to, the cycle that executes l.rfe is back at the restart address, with every register and SR
      (in a slot with DSX) as they were. */
  lemma HandlerReturns(m: Machine, t: Machine, n: nat, h: Machine) returns (b: Machine)
    requires m.Valid() && CycleFault(m).Some? && !m.Cycle().Stuck? && t == m.Cycle().s && t.Valid()
    requires RunCycles(t, n) == Continue(h) && HandlerKept(t, h) && Executes(h, Rfe)
    ensures RunCycles(t, n + 1) == Continue(b) && b.Valid()
    ensures b.pc == RestartPc(m) && !b.slot && b.r.gpr == m.r.gpr
    ensures b.r.sr == if m.slot then WithDsx(m.r.sr) else m.r.sr
  {
    CycleFaultTaken(m);
    var s := ExecutesIs(h, Rfe);
    RfeState(s);
    b := s.Exec(Rfe).s;
    RunSplit(t, n, 1);
    OneCycleRun(h);
    hide Machine.Valid, Machine.Cycle, Machine.Exec, RunCycles, CycleFault, Executes, RestartPc, WithDsx, Vector,
         SetsEear;
  }

  lemma OneCycleRun(s: Machine)
    requires s.Valid()
    ensures RunCycles(s, 1) == s.Cycle()
  {
    CycleValid(s);
    hide Machine.Valid, Machine.Cycle;
  }

  /** The whole story of a slot: a cycle executes the jump j, the next cycle takes an exception of
      any kind, a handler runs for any number of cycles, one executes l.rfe and the next one j again.
      That leaves registers, program counter, slot and target as the first j did, and SR up to DSX. */
  lemma SlotResumed(m0: Machine, j: Instr, m: Machine, t: Machine, n: nat, h: Machine, b: Machine) returns (c: Machine)
    requires m0.Valid() && Executes(m0, j) && Jumps(Abs(m0), j) && m0.Cycle() == Continue(m) && m.Valid()
    requires CycleFault(m).Some? && !m.Cycle().Stuck? && t == m.Cycle().s && t.Valid()
    requires RunCycles(t, n) == Continue(h) && HandlerKept(t, h) && Executes(h, Rfe)
    requires RunCycles(t, n + 1) == Continue(b) && Executes(b, j)
    ensures RunCycles(t, n + 2) == Continue(c)
    ensures m.slot && c.slot && c.pc == m.pc && c.target == m.target && c.r.gpr == m.r.gpr
    ensures c.r.sr == WithDsx(m.r.sr) && (c.r.sr == m.r.sr <==> Bit(m.r.sr, DSX))
  {
    hide *;
    var s0 := ExecutesIs(m0, j);
    SameJumps(m0, s0, j);
    JumpSlot(s0, j);
    var b' := HandlerReturns(m, t, n, h);
    var s1 := ExecutesIs(b, j);
    BackAtJump(s0, m, b, s1, j);
    JumpAgain(s0, s1, j);
    c := s1.Exec(j).s;
    RunSplit(t, n + 1, 1);
    OneCycleRun(b);
  }

  lemma SameJumps(m: Machine, s: Machine, j: Instr)
    requires TickedAndFetched(m, s) && Jumps(Abs(m), j)
    ensures Jumps(Abs(s), j) && s.Valid() && s.pc == m.pc
  {
    hide Bit, Machine.Valid;
  }

  /** The state that runs the jump again is like the one that ran it first. */
  lemma BackAtJump(s0: Machine, m: Machine, b: Machine, s1: Machine, j: Instr)
    requires s0.Valid() && Decoded(j) && Jumps(Abs(s0), j) && s0.Exec(j) == Continue(m) && TickedAndFetched(b, s1)
    requires m.slot && m.pc == Wrap(s0.pc + 4) && m.r == s0.r.(gpr := m.r.gpr)
    requires b.pc == RestartPc(m) && !b.slot && b.r.gpr == m.r.gpr
    requires b.r.sr == if m.slot then WithDsx(m.r.sr) else m.r.sr
    ensures s1.Valid() && s1.pc == s0.pc && s1.r.gpr == s0.Exec(j).s.r.gpr && Bit(s1.r.sr, F) == Bit(s0.r.sr, F)
    ensures s1.r.sr == WithDsx(m.r.sr) && (WithDsx(m.r.sr) == m.r.sr <==> Bit(m.r.sr, DSX))
  {
    BackOne(s0.pc);
    DsxOnly(m.r.sr);
    hide Machine.Valid, Machine.Exec, WithDsx, Bit, Wrap;
  }
}
