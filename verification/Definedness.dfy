/** Exactly when an instruction or a fetch leaves what C++ defines, or ends the process: the
    conditions are the guards of the branches that do, read off the state before. */
module Definedness {
  import opened Words
  import opened Memory
  import opened Translation
  import opened Isa
  import opened Registers
  import opened Machine

  predicate KnownSpr(spr: Spr) {
    (spr.DtlbReg? ==> KnownIndex(spr.index)) && (spr.ItlbReg? ==> KnownIndex(spr.index))
  }

  predicate LeavesCpp(m: Machine, x: Instr)
    requires m.Valid() && Decoded(x)
  {
    match x
    case Load(load, _, a, i) =>
      // a word at an unaligned RAM address
      var ea := Wrap(m.r.gpr[a] + i);
      load == Lwz && ea % 4 != 0 &&
      (m.dmmu.cache.Hits(ea) || var t := m.dmmu.Map(ea, m.r.Supervisor(), false); t.Mapped? && t.phy < RAM_SIZE)
    case Store(width, a, _, i) =>
      // a halfword whose virtual address looks like RAM and whose page is outside RAM
      var ea := Wrap(m.r.gpr[a] + i);
      width == 2 && ea % 2 == 0 && ea < RAM_SIZE &&
      var t := m.dmmu.Map(ea, m.r.Supervisor(), true);
      t.Mapped? && t.phy >= RAM_SIZE
    case Alu(op, _, a, b) =>
      // a signed quotient or product that does not fit 32 bits
      (op == Div && m.r.gpr[a] == 0x8000_0000 && m.r.gpr[b] == 0xffff_ffff)
      || (op == Mul && !(-0x8000_0000 <= Signed(m.r.gpr[a]) * Signed(m.r.gpr[b]) < 0x8000_0000))
    case Mfspr(_, a, k) => m.r.sr != 0 && !KnownSpr(SprAt(SprAddress(m.r.gpr[a], k)))
    case Mtspr(a, _, k) => !KnownSpr(SprAt(SprAddress(m.r.gpr[a], k)))
    case _ => false
  }

  lemma MapAligned(u: MmuState, ea: uint32, sm: bool, write: bool)
    requires u.Valid()
    ensures var t := u.Map(ea, sm, write);
            t.Mapped? ==> t.phy % 4 == ea % 4 && t.phy % 2 == ea % 2
  {
    FrameJoin(u.tlb.Entry(ea), ea);
    hide PageOf, SetOf, Permits, Bit;
  }

  lemma LoadUndefinedExactly(m: Machine, width: nat, ea: uint32)
    requires m.Valid() && width in {1, 2, 4}
    ensures var t := m.dmmu.Map(ea, m.r.Supervisor(), false);
            m.dmmu.Load(m.bus, width, ea, m.r.Supervisor()).Undefined? <==>
              width == 4 && ea % 4 != 0 && (m.dmmu.cache.Hits(ea) || (t.Mapped? && t.phy < RAM_SIZE))
  {
    MapAligned(m.dmmu, ea, m.r.Supervisor(), false);
    if m.dmmu.cache.Hits(ea) {
      LowBitsOfOffset(m.dmmu.cache.frame / PAGE_SIZE, ea % PAGE_SIZE);
      LowBitsOfOffset(ea / PAGE_SIZE, ea % PAGE_SIZE);
      FramePage(m.dmmu.cache.frame, ea);
    }
    hide PageOf, SetOf, Permits, MmuState.Map, PageCache.Hits, Bit, Get8, Get16, Get32;
  }

  lemma StoreUndefinedExactly(m: Machine, width: nat, ea: uint32, v: uint32)
    requires m.Valid() && width in {1, 2, 4}
    ensures var t := m.dmmu.Map(ea, m.r.Supervisor(), true);
            m.dmmu.Store(m.bus, width, ea, v, m.r.Supervisor()).Undefined? <==>
              width == 2 && ea % 2 == 0 && ea < RAM_SIZE && t.Mapped? && t.phy >= RAM_SIZE
  {
    MapAligned(m.dmmu, ea, m.r.Supervisor(), true);
    hide PageOf, SetOf, Permits, MmuState.Map, Bit, Put;
  }

  lemma SprStuckExactly(m: Machine, d: nat, address: uint16, v: uint32)
    requires m.Valid() && d < GPRS
    ensures m.ReadSprInstr(d, address).Stuck? <==> m.r.sr != 0 && !KnownSpr(SprAt(address))
    ensures m.WriteSprInstr(address, v).Stuck? <==> !KnownSpr(SprAt(address))
  {
    hide SprAt, Config, WithDsx, Bit, Wrap;
  }

  /** For every instruction and state. */
  lemma StuckExactly(m: Machine, x: Instr)
    requires m.Valid() && Decoded(x)
    ensures m.Exec(x).Stuck? <==> LeavesCpp(m, x)
  {
    hide MmuState.Load, MmuState.Store, MmuState.Map, MmuState.AfterLoad, MmuState.AfterStore, PageCache.Hits,
         KnownSpr, SprAt, SprAddress, Machine.ReadSprInstr, Machine.WriteSprInstr, Machine.Throw, AluValue, Holds,
         LoadKind.Extend, WithFlag, Bit, Wrap;
    match x
    case Load(load, _, a, i) => LoadUndefinedExactly(m, load.Width(), Wrap(m.r.gpr[a] + i));
    case Store(width, a, b, i) => StoreUndefinedExactly(m, width, Wrap(m.r.gpr[a] + i), m.r.gpr[b]);
    case Mfspr(d, a, k) => SprStuckExactly(m, d, SprAddress(m.r.gpr[a], k), 0);
    case Mtspr(a, b, k) => SprStuckExactly(m, 0, SprAddress(m.r.gpr[a], k), m.r.gpr[b]);
    case _ =>
  }

  /** A fetch is undefined exactly if it reads RAM at an unaligned program counter: through the
      page that the processor remembers, through a translation, or (in no state that a run
      reaches, since switching an MMU empties its cache) through a page remembered by an IMMU that
      is off. */
  lemma FetchUndefinedExactly(m: Machine)
    requires m.Valid()
    ensures var t := m.immu.Map(m.pc, m.r.Supervisor(), false);
            m.Fetch().NoFetch? <==>
              m.pc % 4 != 0
              && (m.fetch.Hits(m.pc) || (t.Mapped? && t.phy < RAM_SIZE) || (!m.immu.enabled && m.immu.cache.Hits(m.pc)))
  {
    var t := m.immu.Map(m.pc, m.r.Supervisor(), false);
    if t.Mapped? && t.phy >= RAM_SIZE { DeviceFetchUndefinedExactly(m); }
    hide PageOf, SetOf, Permits, MmuState.Load, MmuState.AfterLoad, MmuState.AfterMap, PageCache.Hits, Bit, Get32;
  }

  /** A fetch translated outside RAM reaches the array only through the cache of an IMMU off. */
  lemma DeviceFetchUndefinedExactly(m: Machine)
    requires m.Valid() && m.immu.Map(m.pc, m.r.Supervisor(), false).Mapped?
    requires m.immu.Map(m.pc, m.r.Supervisor(), false).phy >= RAM_SIZE
    ensures m.immu.AfterMap(m.pc, m.r.Supervisor(), false).Load(m.bus, 4, m.pc, m.r.Supervisor()).Undefined?
            <==> m.pc % 4 != 0 && !m.immu.enabled && m.immu.cache.Hits(m.pc)
  {
    if m.immu.cache.Hits(m.pc) {
      LowBitsOfOffset(m.immu.cache.frame / PAGE_SIZE, m.pc % PAGE_SIZE);
      LowBitsOfOffset(m.pc / PAGE_SIZE, m.pc % PAGE_SIZE);
      FramePage(m.immu.cache.frame, m.pc);
    }
    hide SetOf, Permits, Bit, Get32;
  }
}
