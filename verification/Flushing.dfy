/** When the page caches are emptied (simctty/cpu.cc): at every write of SR, so at every exception
    and every return from one, whatever the program has done before. */
module Flushing {
  import opened Words
  import opened Exceptions
  import opened Translation
  import opened Isa
  import opened Registers
  import opened Machine
  import opened Restart

  /** The two words differ at most in the flag F. */
  predicate SameButFlag(x: uint32, y: uint32) { x % F == y % F && x / (2 * F) == y / (2 * F) }

  predicate SrRule(m: Machine, s: Step<Machine>) {
    !s.Stuck? ==> SameButFlag(s.s.r.sr, m.r.sr) || CachesEmpty(s.s)
  }

  /** For every instruction, whatever the program has done before: SR changes in more than the
      flag only together with an empty fetch cache and two empty MMU caches. */
  lemma SrChangeEmptiesCaches(m: Machine, x: Instr)
    requires m.Valid() && Decoded(x) && !m.Exec(x).Stuck?
    ensures SameButFlag(m.Exec(x).s.r.sr, m.r.sr) || CachesEmpty(m.Exec(x).s)
  {
    SrRuleHolds(m, x);
    hide Machine.Exec, SameButFlag, CachesEmpty;
  }

  lemma SrRuleHolds(m: Machine, x: Instr)
    requires m.Valid() && Decoded(x)
    ensures SrRule(m, m.Exec(x))
  {
    hide Machine.Finish, Machine.CompareInstr, Machine.WriteSprInstr, Machine.ReadSprInstr, Machine.AluInstr,
         Machine.LoadInstr, Machine.StoreInstr, Machine.ControlInstr, SprAddress, ImmOperand, Wrap, SrRule;
    match x
    case CompareImm(c, a, i) => CompareKeepsSr(m, c, m.r.gpr[a], Wrap(i));
    case Compare(c, a, b) => CompareKeepsSr(m, c, m.r.gpr[a], m.r.gpr[b]);
    case Mtspr(a, b, k) => WriteSrEmptiesCaches(m, SprAddress(m.r.gpr[a], k), m.r.gpr[b]);
    case MovHi(d, k) => FinishKeepsSr(m, d, k * 0x1_0000);
    case Load(load, d, a, i) => LoadEmptiesCaches(m, load, d, Wrap(m.r.gpr[a] + i));
    case Store(width, a, b, i) => StoreEmptiesCaches(m, width, Wrap(m.r.gpr[a] + i), m.r.gpr[b]);
    case AluImm(op, d, a, k) => AluKeepsSr(m, ImmToAlu(op), d, m.r.gpr[a], ImmOperand(op, k));
    case Mfspr(d, a, k) => ReadKeepsSr(m, d, SprAddress(m.r.gpr[a], k));
    case Alu(op, d, a, b) => AluKeepsSr(m, op, d, m.r.gpr[a], m.r.gpr[b]);
    case _ => ControlEmptiesCaches(m, x);
  }

  lemma FinishKeepsSr(m: Machine, d: nat, v: uint32)
    requires m.Valid() && d < GPRS
    ensures SrRule(m, m.Finish(d, v))
  {
    SameSr(m.r.sr);
    hide SameButFlag, CachesEmpty;
  }

  lemma CompareKeepsSr(m: Machine, c: Cond, x: uint32, y: uint32)
    requires m.Valid()
    ensures SrRule(m, m.CompareInstr(c, x, y))
  {
    FlagOnlyDiffers(m.r.sr, Holds(c, x, y));
    hide Holds, WithFlag, SameButFlag, CachesEmpty;
  }

  lemma LoadEmptiesCaches(m: Machine, load: LoadKind, d: nat, ea: uint32)
    requires m.Valid() && d < GPRS
    ensures SrRule(m, m.LoadInstr(load, d, ea))
  {
    SameSr(m.r.sr);
    hide Bit, WithDsx, MmuState.Load, MmuState.AfterLoad, LoadKind.Extend, SameButFlag, Wrap;
  }

  lemma StoreEmptiesCaches(m: Machine, width: nat, ea: uint32, v: uint32)
    requires m.Valid() && width in {1, 2, 4}
    ensures SrRule(m, m.StoreInstr(width, ea, v))
  {
    SameSr(m.r.sr);
    hide Bit, WithDsx, MmuState.Store, MmuState.AfterStore, SameButFlag, Wrap;
  }

  lemma AluKeepsSr(m: Machine, op: AluOp, d: nat, x: uint32, y: uint32)
    requires m.Valid() && d < GPRS
    ensures SrRule(m, m.AluInstr(op, d, x, y))
  {
    if !m.AluInstr(op, d, x, y).Stuck? { FinishKeepsSr(m, d, AluValue(op, x, y)); }
    hide AluValue, Machine.Finish, SameButFlag, CachesEmpty;
  }

  lemma ReadKeepsSr(m: Machine, d: nat, address: uint16)
    requires m.Valid() && d < GPRS
    ensures SrRule(m, m.ReadSprInstr(d, address))
  {
    SameSr(m.r.sr);
    hide ReadSpr, SameButFlag, CachesEmpty, Wrap;
  }

  lemma SameSr(sr: uint32)
    ensures SameButFlag(sr, sr)
  {
  }

  lemma FlagOnlyDiffers(sr: uint32, flag: bool)
    ensures SameButFlag(WithFlag(sr, flag), sr)
  {
    FlagRest(sr, flag);
  }

  lemma ControlEmptiesCaches(m: Machine, x: Instr)
    requires m.Valid() && Decoded(x) && IsControl(x)
    ensures SrRule(m, m.ControlInstr(x))
  {
    SameSr(m.r.sr);
    hide Bit, WithDsx, SameButFlag, Wrap;
  }

  lemma WriteSrEmptiesCaches(m: Machine, address: uint16, v: uint32)
    requires m.Valid()
    ensures SrRule(m, m.WriteSprInstr(address, v))
  {
    SameSr(m.r.sr);
    hide Bit, WithDsx, SameButFlag, Wrap, Tlb.Write;
  }

  // ---------------------------------------------------------------- every way of writing SR

  /** The instruction writes SR: l.rfe, l.mtspr to SR, l.sys, or one that faults. */
  predicate WritesSr(m: Machine, x: Instr)
    requires m.Valid() && Decoded(x)
  {
    x.Rfe? || x.Sys? || FaultOf(m, x).Some? || (x.Mtspr? && SprAt(SprAddress(m.r.gpr[x.a], x.k)) == SrReg)
  }

  /** Each of them leaves all three caches empty. */
  lemma SrWriteEmptiesCaches(m: Machine, x: Instr)
    requires m.Valid() && Decoded(x) && WritesSr(m, x)
    ensures m.Exec(x).Continue? && CachesEmpty(m.Exec(x).s)
  {
    hide Bit, WithDsx, MmuState.Load, MmuState.Store, MmuState.AfterLoad, MmuState.AfterStore, Wrap, SprAt, SprAddress,
         Vector, SetsEear;
  }

  /** So does a cycle that takes a tick or fetch exception; and no cycle changes more of SR than
      the flag without emptying them. */
  lemma CycleEmptiesCaches(m: Machine)
    requires m.Valid() && !m.Cycle().Stuck?
    ensures SameButFlag(m.Cycle().s.r.sr, m.r.sr) || CachesEmpty(m.Cycle().s)
    ensures var t := m.(r := m.r.Ticked());
            t.r.TickRaises() || t.Fetch().FetchFault? ==> m.Cycle().Stopped? && CachesEmpty(m.Cycle().s)
  {
    var t := m.(r := m.r.Ticked());
    assert t.r.sr == m.r.sr;
    TickedValid(m);
    FetchKeeps(t);
    hide Machine.Valid, Machine.Fetch, Machine.Exec, Decode, Decoded, Regs.Ticked, Regs.TickRaises, SameButFlag, Bit,
         WithDsx;
    if !t.r.TickRaises() && t.Fetch().Word? {
      DecodeDecoded(t.Fetch().w);
      SrChangeEmptiesCaches(t.Fetch().s, Decode(t.Fetch().w));
    }
  }

  /** Taking an external interrupt empties them too; sampling without taking one leaves SR alone. */
  lemma InterruptEmptiesCaches(m: Machine)
    requires m.Valid()
    ensures if m.r.Sampled(m.bus.Interrupts()).InterruptDue() then CachesEmpty(m.CheckInterrupts())
            else m.CheckInterrupts().r.sr == m.r.sr
  {
    hide Bit, Bitwise32, WithDsx;
  }
}
