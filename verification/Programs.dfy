/** Programs end to end: what a loaded image runs, where jumps go, and the one instruction that
    the fetch cache gets wrong. */
module Programs {
  import opened Words
  import opened Memory
  import opened Bus
  import opened Translation
  import opened Isa
  import opened Assembler
  import opened Registers
  import opened Machine
  import opened Reference
  import opened Refinement
  import opened Runs
  import opened Restart

  // ---------------------------------------------------------------- loaded programs run

  lemma FetchOff(a: Reference)
    requires a.Valid() && !Bit(a.r.sr, IME) && a.pc % 4 == 0 && a.pc < RAM_SIZE
    ensures a.pc + 3 < RAM_SIZE && a.Fetch() == Word(Get32(a.bus.mem, a.pc), a)
  {
    AlignedEnd(a.pc, 4);
    hide Get32;
  }

  lemma CycleOf(a: Reference, w: uint32, x: Instr)
    requires a.Valid() && !a.r.Ticked().TickRaises() && a.(r := a.r.Ticked()).Fetch() == Word(w, a.(r := a.r.Ticked()))
    requires Decode(w) == x
    ensures Decoded(x) && a.Cycle() == a.(r := a.r.Ticked()).Exec(x)
  {
    hide Reference.Fetch, Reference.Exec, Decode, Decoded, Regs.Ticked, Regs.TickRaises;
    DecodeDecoded(w);
  }

  /** A cycle with the program counter at word k of a loaded program, translation off and no
      timer exception, executes instruction k. */
  lemma LoadedProgramRuns(a: Reference, mem: seq<uint8>, prog: seq<Instr>, k: nat)
    requires a.Valid() && Program(prog) && k < |prog| && 4 * |prog| <= RAM_SIZE && |mem| == RAM_SIZE
    requires a.bus.mem == Overlay(mem, 0, Image(prog)) && a.pc == 4 * k && !Bit(a.r.sr, IME)
             && !a.r.Ticked().TickRaises()
    ensures Decoded(prog[k]) && a.Cycle() == a.(r := a.r.Ticked()).Exec(prog[k])
  {
    hide Reference.Fetch, Reference.Exec, Reference.Cycle, Decode, Decoded, Get32, Overlay, Image, WithPending, Bit,
         Program, Regs.TickRaises;
    LoadedProgramDecodes(mem, prog, k);
    FetchOff(a.(r := a.r.Ticked()));
    CycleOf(a, Get32(a.bus.mem, a.pc), prog[k]);
  }

  /** With both translations off and outside a slot no instruction is one of the four. */
  lemma OffConforms(a: Reference, x: Instr)
    requires a.Valid() && Decoded(x) && !a.slot && !Bit(a.r.sr, IME) && !Bit(a.r.sr, DME)
    ensures Conforms(a, x)
  {
    hide Bit, Wrap, KeepsFetches, Permits;
  }

  lemma OffConformsCycle(a: Reference)
    requires a.Valid() && !a.slot && !Bit(a.r.sr, IME) && !Bit(a.r.sr, DME)
    ensures ConformingCycle(a)
  {
    hide Reference.Fetch, Decode, Decoded, Conforms, Bit, WithPending, Regs.TickRaises;
    var t := a.(r := a.r.Ticked());
    if t.Fetch().Word? {
      DecodeDecoded(t.Fetch().w);
      OffConforms(t, Decode(t.Fetch().w));
    }
  }

  lemma FirstCycle(s: Machine, mem: seq<uint8>, prog: seq<Instr>, k: nat)
    requires s.Valid() && Coherent(s) && !s.slot && !Bit(s.r.sr, IME) && !Bit(s.r.sr, DME) && !s.r.Ticked().TickRaises()
    requires Program(prog) && k < |prog| && 4 * |prog| <= RAM_SIZE && |mem| == RAM_SIZE
    requires s.bus.mem == Overlay(mem, 0, Image(prog)) && s.pc == 4 * k
    ensures Decoded(prog[k]) && AbsStep(s.Cycle()) == Abs(s).(r := s.r.Ticked()).Exec(prog[k])
  {
    hide Machine.Cycle, Reference.Cycle, Reference.Exec, Decoded, ConformingCycle, FaithfulCycle, Coherent, Image,
         Program, Overlay, Regs.Ticked, Regs.TickRaises, Bit, AbsStep, Wrap;
    OffConformsCycle(Abs(s));
    ConformingIsFaithful(s);
    CycleExact(s);
    LoadedProgramRuns(Abs(s), mem, prog, k);
  }

  /** Load a program, start it at word k: the simulator's first cycle is the reference machine's
      execution of instruction k, whatever the system did before. */
  lemma FirstInstruction(m: Machine, prog: seq<Instr>, k: nat, s: Machine)
    requires m.Valid() && Program(prog) && k < |prog| && 4 * |prog| <= RAM_SIZE
    requires Act(m, LoadImage(Image(prog), 4 * k)) == Continue(s)
    ensures s.Valid() && Decoded(prog[k]) && Abs(s).Valid()
    ensures AbsStep(s.Cycle()) == Abs(s).(r := s.r.Ticked()).Exec(prog[k])
  {
    hide Act, Machine.Cycle, Reference.Exec, Decoded, Coherent, Image, Program, Overlay, Regs.Ticked,
         Regs.TickRaises, Bit, Abs, AbsStep;
    LoadedState(m, Image(prog), 4 * k, s);
    FirstCycle(s, m.bus.mem, prog, k);
  }

  lemma LoadedState(m: Machine, image: seq<uint8>, start: uint32, s: Machine)
    requires m.Valid() && |image| <= RAM_SIZE && Act(m, LoadImage(image, start)) == Continue(s)
    ensures s.Valid() && Coherent(s) && Abs(s).Valid() && s.pc == start && !s.slot
    ensures !Bit(s.r.sr, IME) && !Bit(s.r.sr, DME) && !s.r.Ticked().TickRaises()
    ensures |m.bus.mem| == RAM_SIZE && s.bus.mem == Overlay(m.bus.mem, 0, image)
  {
    ResetValid(m);
    TimerOff(s.r);
    assert !Bit(RESET_SR, IME) && !Bit(RESET_SR, DME);
    hide CacheSound, FetchSound, Regs.Ticked, Regs.TickRaises, Bit, Overlay;
    SameCaches(m.Reset(), s);
  }

  lemma TimerOff(r: Regs)
    requires r.ttmr == 0
    ensures !r.Ticked().TickRaises()
  {
  }

  // ---------------------------------------------------------------- jumps

  /** The instruction takes an exception: l.sys, a fault of its own, or an l.mtspr that leaves a
      timer interrupt due. */
  predicate EntersException(m: Machine, x: Instr)
    requires m.Valid() && Decoded(x)
  {
    || x.Sys?
    || FaultOf(m, x).Some?
    || (x.Mtspr? && var t := m.WriteSpr(SprAddress(m.r.gpr[x.a], x.k), m.r.gpr[x.b]); t.Some? && t.value.r.TimerDue())
  }

  /** The instruction completes and the run goes on, with no jump taken and no exception entered or
      left. */
  predicate Advances(m: Machine, x: Instr)
    requires m.Valid() && Decoded(x)
  {
    m.Exec(x).Continue? && !Jumps(Abs(m), x) && !x.Rfe? && !EntersException(m, x)
  }

  /** Every such instruction, of any kind, goes on to the next one: in a slot to the target. */
  lemma AdvanceGoes(m: Machine, x: Instr)
    requires m.Valid() && Decoded(x) && Advances(m, x)
    ensures m.Exec(x).Continue? && !m.Exec(x).s.slot
    ensures m.Exec(x).s.pc == if m.slot then m.target else Wrap(m.pc + 4)
  {
    hide Overflows, AluValue, Holds, WithFlag, ReadSpr, SprAt, SprAddress, Machine.Throw, MmuState.Load, MmuState.Store,
         MmuState.AfterLoad, MmuState.AfterStore, ImmOperand, Bit, Wrap;
    if x.Mtspr? { WriteAdvances(m, SprAddress(m.r.gpr[x.a], x.k), m.r.gpr[x.b]); }
    hide Machine.WriteSprInstr;
  }

  lemma WriteAdvances(m: Machine, address: uint16, v: uint32)
    requires m.Valid()
    ensures var t := m.WriteSpr(address, v);
            t.Some? && !t.value.r.TimerDue() ==>
              && m.WriteSprInstr(address, v).Continue? && !m.WriteSprInstr(address, v).s.slot
              && m.WriteSprInstr(address, v).s.pc == if m.slot then m.target else Wrap(m.pc + 4)
    ensures m.WriteSprInstr(address, v).Continue? ==> m.WriteSpr(address, v).Some?
  {
    hide Bit, Wrap, SprAt, Machine.Throw;
  }

  /** The mnemonics with a word displacement, as the assembler takes them. */
  predicate PcRelative(m: Machine, x: Instr) {
    x.Jump? || x.JumpLink? || (x.Branch? && Bit(m.r.sr, F) == x.onFlag)
  }

  /** Branch reach: from a word-aligned pc to every word-aligned target within 2^27 bytes, the
      assembled l.j, l.jal or taken l.bf/l.bnf followed by any slot instruction that simply
      completes arrives at the target; l.jal leaves the address after the slot in r9. */
  lemma BranchReach(m: Machine, displacement: int, x: Instr, w: uint32, y: Instr)
    requires m.Valid() && displacement % 4 == 0 && -0x800_0000 <= displacement <= 0x7ff_fffc
    requires PcRelative(m, x) && x.offset == displacement && w == Encode(x)
    requires Decoded(x) && Decoded(y) && (m.Exec(x).Continue? && m.Exec(x).s.Valid() ==> Advances(m.Exec(x).s, y))
    ensures Decode(w) == x && m.Exec(x).Continue? && m.Exec(x).s.Valid()
    ensures var s := m.Exec(x).s;
            && s.pc == Wrap(m.pc + 4) && s.slot
            && (x.JumpLink? ==> s.r.gpr[9] == Wrap(m.pc + 8))
            && s.Exec(y).Continue? && s.Exec(y).s.pc == Wrap(m.pc + displacement) && !s.Exec(y).s.slot
  {
    hide *;
    JumpDecodes(m, x, w);
    JumpStep(m, x);
    SlotLands(m.Exec(x).s, y);
  }

  lemma JumpDecodes(m: Machine, x: Instr, w: uint32)
    requires PcRelative(m, x) && x.offset % 4 == 0 && -0x800_0000 <= x.offset <= 0x7ff_fffc && w == Encode(x)
    ensures Decode(w) == x
  {
    hide Decode, Encode, Bit;
    DecodeEncode(x, w);
  }

  /** The slot instruction, if it simply completes, goes on to the pending target. */
  lemma SlotLands(s: Machine, y: Instr)
    requires s.Valid() && s.slot && Decoded(y) && Advances(s, y)
    ensures s.Exec(y).Continue? && s.Exec(y).s.pc == s.target && !s.Exec(y).s.slot
  {
    hide *;
    AdvanceGoes(s, y);
  }

  lemma JumpStep(m: Machine, x: Instr)
    requires m.Valid() && Decoded(x) && PcRelative(m, x)
    ensures m.Exec(x).Continue? && m.Exec(x).s.Valid()
    ensures var s := m.Exec(x).s;
            && s.pc == Wrap(m.pc + 4) && s.slot && s.target == Wrap(m.pc + x.offset)
            && (x.JumpLink? ==> s.r.gpr[9] == Wrap(m.pc + 8))
  {
    ExecValid(m, x);
    hide Bit, Wrap;
  }

  // ---------------------------------------------------------------- the stale fetch

  /** An l.mtspr that points the translate register of the executing page at another RAM frame:
      from every coherent state that fetches from the page, the instruction itself does what the
      reference machine does, but the next fetch reads the old frame where the reference machine
      reads the new one. */
  lemma StaleFetch(m: Machine, x: Instr, v: uint32)
    requires m.Valid() && Coherent(m) && m.immu.enabled && m.fetch.Hits(m.pc) && !m.r.TimerDue()
    requires x.Mtspr? && Decoded(x) && v == m.r.gpr[x.b]
    requires SprAt(SprAddress(m.r.gpr[x.a], x.k)) == ItlbReg(TRANSLATE_OFFSET + SetOf(m.pc))
    requires Permits(InstructionMmu, v, false, false) && PageOf(v) < RAM_SIZE
    requires Abs(m).npc % 4 == 0 && PageOf(Abs(m).npc) == PageOf(m.pc)
    ensures m.Exec(x).Continue? && m.Exec(x).s.Valid() && Abs(m).Exec(x) == Continue(Abs(m.Exec(x).s))
    ensures var s := m.Exec(x).s;
            var offset := s.pc % PAGE_SIZE;
            && s.pc == Abs(m).npc
            && m.fetch.frame + offset + 3 < RAM_SIZE && PageOf(v) + offset + 3 < RAM_SIZE
            && s.Fetch() == Word(Get32(m.bus.mem, m.fetch.frame + offset), s)
            && Abs(s).Fetch() == Word(Get32(m.bus.mem, PageOf(v) + offset), Abs(s))
  {
    RemapState(m, x, v);
    StaleState(m, v, m.Exec(x).s);
  }

  /** m with the executing page's translate register set to v, and the program counter moved. */
  predicate Remapped(m: Machine, v: uint32, s: Machine)
    requires m.Valid()
  {
    var t := m.immu.tlb.Write(TRANSLATE_OFFSET + SetOf(m.pc), v);
    t.Some? && s == m.(immu := m.immu.(tlb := t.value, cache := NoPage), pc := s.pc, slot := s.slot, r := s.r)
    && Bit(s.r.sr, IME) == Bit(m.r.sr, IME) && s.Valid()
  }

  lemma RemapState(m: Machine, x: Instr, v: uint32)
    requires m.Valid() && Coherent(m) && !m.r.TimerDue() && x.Mtspr? && Decoded(x) && v == m.r.gpr[x.b]
    requires SprAt(SprAddress(m.r.gpr[x.a], x.k)) == ItlbReg(TRANSLATE_OFFSET + SetOf(m.pc))
    ensures m.Exec(x).Continue? && m.Exec(x).s.Valid() && Abs(m).Exec(x) == Continue(Abs(m.Exec(x).s))
    ensures Remapped(m, v, m.Exec(x).s) && m.Exec(x).s.pc == Abs(m).npc && m.Exec(x).s.r == m.r && !m.Exec(x).s.slot
  {
    ExecValid(m, x);
    WriteSprInstrExact(m, SprAddress(m.r.gpr[x.a], x.k), v);
    hide SprAt, SprAddress, Coherent, RemapsRemembered, WithDsx, Wrap, Bit, SetOf;
  }

  lemma StaleState(m: Machine, v: uint32, s: Machine)
    requires m.Valid() && Coherent(m) && m.immu.enabled && m.fetch.Hits(m.pc)
    requires Permits(InstructionMmu, v, false, false) && PageOf(v) < RAM_SIZE
    requires Remapped(m, v, s) && s.pc % 4 == 0 && PageOf(s.pc) == PageOf(m.pc)
    ensures var offset := s.pc % PAGE_SIZE;
            && m.fetch.frame + offset + 3 < RAM_SIZE && PageOf(v) + offset + 3 < RAM_SIZE
            && s.Fetch() == Word(Get32(m.bus.mem, m.fetch.frame + offset), s)
            && Abs(s).Fetch() == Word(Get32(m.bus.mem, PageOf(v) + offset), Abs(s))
  {
    RemappedTranslation(m, v, s.pc, s.r.Supervisor());
    FramePage(m.fetch.frame, s.pc);
    FrameJoin(v, s.pc);
    FramePage(PageOf(v) + s.pc % PAGE_SIZE, s.pc);
    FetchWord(m.bus, PageOf(v), s.pc, PageOf(v) + s.pc % PAGE_SIZE);
    hide PageOf, SetOf, Translate, Coherent, BusLoad, Get32, Permits, Bit, Tlb.Write;
  }

  lemma RemappedTranslation(m: Machine, v: uint32, at: uint32, sm: bool)
    requires m.Valid() && Coherent(m) && m.immu.enabled && m.fetch.Hits(m.pc)
             && Permits(InstructionMmu, v, false, false)
    requires PageOf(at) == PageOf(m.pc)
    ensures var t := m.immu.tlb.Write(TRANSLATE_OFFSET + SetOf(m.pc), v);
            && t.Some? && t.value.Valid()
            && Translate(t.value, true, InstructionMmu, at, sm, false) == Mapped(PageOf(v) + at % PAGE_SIZE)
  {
    PageOfPage(m.pc);
    SamePage(m.pc, m.fetch.page);
    SamePage(at, m.pc);
    FrameJoin(v, at);
    hide PageOf, CacheSound, Bit, BusState.Valid;
  }
}
