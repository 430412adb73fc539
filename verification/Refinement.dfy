/** The simulator refines the reference machine: caches, enable flags and the slot encoding are
    invisible, except for four things that the simulator treats differently. An instruction
    agrees with the reference machine and keeps the caches right exactly if it does none of them. */
module Refinement {
  import opened Words
  import opened Exceptions
  import opened Memory
  import opened Bus
  import opened Translation
  import opened Isa
  import opened Registers
  import opened Machine
  import opened Reference

  // ---------------------------------------------------------------- abstraction and coherence

  /** The reference state: caches forgotten, the next program counter made explicit. */
  function Abs(m: Machine): Reference {
    Reference(m.r, m.pc, if m.slot then m.target else Wrap(m.pc + 4), m.slot, m.immu.tlb, m.dmmu.tlb, m.bus)
  }

  function AbsStep(s: Step<Machine>): Step<Reference> {
    match s
    case Continue(m) => Continue(Abs(m))
    case Stopped(m, ok) => Stopped(Abs(m), ok)
    case Stuck => Stuck
  }

  function AbsFetched(f: Fetched<Machine>): Fetched<Reference> {
    match f
    case Word(w, m) => Word(w, Abs(m))
    case FetchFault(e, m) => FetchFault(e, Abs(m))
    case NoFetch => NoFetch
  }

  /** The remembered fetch page is the one the IMMU would translate to now. */
  predicate FetchSound(m: Machine)
    requires m.Valid()
  {
    m.fetch.Page? ==> m.immu.Map(m.fetch.page, false, false) == Mapped(m.fetch.frame)
  }

  /** All three page caches agree with the TLBs in the current mode. */
  predicate Coherent(m: Machine)
    requires m.Valid()
  {
    CacheSound(m.dmmu, m.r.Supervisor()) && CacheSound(m.immu, m.r.Supervisor()) && FetchSound(m)
  }

  predicate CoherentStep(s: Step<Machine>) {
    !s.Stuck? ==> s.s.Valid() && Coherent(s.s)
  }

  // ---------------------------------------------------------------- the four exceptions

  /** The instruction would jump. */
  predicate Jumps(a: Reference, x: Instr) {
    x.Jump? || x.JumpLink? || x.JumpReg? || x.JumpLinkReg? || (x.Branch? && Bit(a.r.sr, F) == x.onFlag)
  }

  /** (1) A jump in a delay slot whose pending target is not the next word anyway. */
  predicate JumpInSlot(a: Reference, x: Instr) {
    a.slot && a.npc != Wrap(a.pc + 4) && Jumps(a, x)
  }

  /** (2) A word load from a RAM page that the TLB lets this mode write but not read. */
  predicate WriteOnlyLoad(a: Reference, x: Instr)
    requires a.Valid() && Decoded(x)
  {
    x.Load? && x.load == Lwz && Bit(a.r.sr, DME) &&
    var ea := Wrap(a.r.gpr[x.a] + x.i);
    && a.dtlb.Matches(ea) && PageOf(a.dtlb.Entry(ea)) < RAM_SIZE
    && Permits(DataMmu, a.dtlb.Entry(ea), a.r.Supervisor(), true)
    && !Permits(DataMmu, a.dtlb.Entry(ea), a.r.Supervisor(), false)
  }

  /** (3) A halfword store at a RAM-like virtual address whose page maps outside RAM. */
  predicate StrayHalfword(a: Reference, x: Instr)
    requires a.Valid() && Decoded(x)
  {
    x.Store? && x.width == 2 &&
    var ea := Wrap(a.r.gpr[x.a] + x.i);
    && ea % 2 == 0 && ea < RAM_SIZE
    && var t := Translate(a.dtlb, Bit(a.r.sr, DME), DataMmu, ea, a.r.Supervisor(), true);
       t.Mapped? && t.phy >= RAM_SIZE
  }

  /** Set s, if it maps a page into RAM for fetches, still maps that page to that frame. */
  predicate EntryKept(old_: Tlb, new_: Tlb, s: nat)
    requires old_.Valid() && new_.Valid() && s < USED_SETS
  {
    var mr, tr := old_.matches[s], old_.translates[s];
    Bit(mr, 1) && mr / PAGE_SIZE % USED_SETS == s
    && Permits(InstructionMmu, tr, false, false) && PageOf(tr) < RAM_SIZE ==>
      && Bit(new_.matches[s], 1) && new_.matches[s] / PAGE_SIZE == mr / PAGE_SIZE
      && Permits(InstructionMmu, new_.translates[s], false, false)
      && PageOf(new_.translates[s]) == PageOf(tr)
  }

  predicate KeepsFetches(old_: Tlb, new_: Tlb)
    requires old_.Valid() && new_.Valid()
  {
    forall s :: 0 <= s < USED_SETS ==> EntryKept(old_, new_, s)
  }

  /** (4) A write to an ITLB register, with translation on and no timer interrupt due, that remaps
      a live page. */
  predicate RemapsFetches(a: Reference, x: Instr)
    requires a.Valid() && Decoded(x)
  {
    x.Mtspr? && Bit(a.r.sr, IME) && !a.r.TimerDue() &&
    var spr := SprAt(SprAddress(a.r.gpr[x.a], x.k));
    && spr.ItlbReg?
    && var t := a.itlb.Write(spr.index, a.r.gpr[x.b]);
       t.Some? && !KeepsFetches(a.itlb, t.value)
  }

  /** None of the four, as a programmer of the reference machine would state them: whatever the
      simulator has cached, the instruction is then safe. */
  predicate Conforms(a: Reference, x: Instr)
    requires a.Valid() && Decoded(x)
  {
    !JumpInSlot(a, x) && !WriteOnlyLoad(a, x) && !StrayHalfword(a, x) && !RemapsFetches(a, x)
  }

  /** (2) as the simulator sees it: a word load on the remembered page, which is not readable. */
  predicate UnreadableHit(m: Machine, ea: uint32)
    requires m.Valid()
  {
    m.dmmu.cache.Hits(ea) && !Permits(DataMmu, m.dmmu.tlb.Entry(ea), m.r.Supervisor(), false)
  }

  /** (4) as the simulator sees it: an ITLB write that remaps the remembered fetch page, with no
      timer exception to empty the caches right after it. */
  predicate RemapsRemembered(m: Machine, address: uint16, v: uint32)
    requires m.Valid()
  {
    && m.fetch.Page? && Bit(m.r.sr, IME) && !m.r.TimerDue() && SprAt(address).ItlbReg?
    && var t := m.immu.tlb.Write(SprAt(address).index, v);
       t.Some? && !EntryKept(m.immu.tlb, t.value, SetOf(m.fetch.page))
  }

  /** One of the four happens, given what is cached now. */
  predicate Deviates(m: Machine, x: Instr)
    requires m.Valid() && Decoded(x)
  {
    || JumpInSlot(Abs(m), x)
    || (x.Load? && x.load == Lwz && UnreadableHit(m, Wrap(m.r.gpr[x.a] + x.i)))
    || StrayHalfword(Abs(m), x)
    || (x.Mtspr? && RemapsRemembered(m, SprAddress(m.r.gpr[x.a], x.k), m.r.gpr[x.b]))
  }

  /** The simulator's step is the reference machine's and leaves the caches right. */
  predicate Agrees(s: Step<Machine>, t: Step<Reference>) {
    AbsStep(s) == t && CoherentStep(s)
  }

  // ---------------------------------------------------------------- control state

  lemma IncrementRefines(m: Machine)
    requires m.Valid()
    ensures Abs(m.IncrementPC()) == Abs(m).Advance()
  {
  }

  /** A jump goes where the reference machine's does exactly if it is not in a slot that is about to
      go elsewhere. */
  lemma JumpExact(m: Machine, next: uint32)
    requires m.Valid()
    ensures Abs(m.JumpTo(next)) == Abs(m).Branch(next) <==> !(m.slot && m.target != Wrap(m.pc + 4))
  {
  }

  lemma ThrowRefines(m: Machine, e: Exception, ea: uint32)
    requires m.Valid()
    ensures Abs(m.Throw(e, ea)) == Abs(m).Raise(e, ea)
    ensures m.Throw(e, ea).Valid() && Coherent(m.Throw(e, ea)) && CachesEmpty(m.Throw(e, ea))
  {
  }

  /** Coherence only looks at the caches, the TLBs and the mode. */
  lemma SameCaches(m: Machine, m': Machine)
    requires m.Valid() && Coherent(m) && m'.Valid()
    requires m'.fetch == m.fetch && m'.immu == m.immu && m'.dmmu == m.dmmu && Bit(m'.r.sr, SM) == Bit(m.r.sr, SM)
    ensures Coherent(m')
  {
  }

  lemma ControlRefines(m: Machine, x: Instr)
    requires m.Valid() && Coherent(m) && Decoded(x) && IsControl(x) && !JumpInSlot(Abs(m), x)
    ensures AbsStep(m.ControlInstr(x)) == Abs(m).ControlInstr(x)
    ensures CoherentStep(m.ControlInstr(x))
  {
    hide CacheSound, FetchSound, WithDsx, Bit;
    ControlValid(m, x);
    match x
    case Sys(_) => SystemCallRefines(m);
    case Rfe => ReturnRefines(m);
    case Illegal => ThrowRefines(m, IllegalInstruction, m.pc);
    case JumpLink(n) => SameCaches(m, m.SetGpr(9, Wrap(m.pc + 8)).JumpTo(Wrap(m.pc + n)));
    case JumpLinkReg(b) =>
      var l := m.SetGpr(9, Wrap(m.pc + 8));
      SameCaches(m, l.JumpTo(l.r.gpr[b]));
    case Jump(n) => SameCaches(m, m.JumpTo(Wrap(m.pc + n)));
    case JumpReg(b) => SameCaches(m, m.JumpTo(m.r.gpr[b]));
    case Branch(_, n) =>
      SameCaches(m, m.JumpTo(Wrap(m.pc + n)));
      SameCaches(m, m.IncrementPC());
    case Nop(_) => SameCaches(m, m.IncrementPC());
    case Trap(_) => SameCaches(m, m.IncrementPC());
  }

  lemma SystemCallRefines(m: Machine)
    requires m.Valid()
    ensures var t := m.(pc := Wrap(m.pc + 4)).Throw(SystemCall, 0);
            && Abs(t) == Abs(m).RaiseFrom(SystemCall, 0, if m.slot then m.pc else Wrap(m.pc + 4))
            && t.Valid() && Coherent(t)
  {
    ThrowRefines(m.(pc := Wrap(m.pc + 4)), SystemCall, 0);
  }

  lemma ReturnRefines(m: Machine)
    requires m.Valid()
    ensures var t := m.(pc := m.r.epcr, slot := false).SetSr(m.r.esr);
            && Abs(t) == Abs(m).(r := m.r.(sr := m.r.esr)).Enter(m.r.epcr)
            && t.Valid() && Coherent(t) && CachesEmpty(t)
  {
  }

  // ---------------------------------------------------------------- memory instructions

  lemma LoadRefines(m: Machine, load: LoadKind, d: nat, ea: uint32)
    requires m.Valid() && Coherent(m) && d < GPRS
    requires !(load == Lwz && UnreadableHit(m, ea))
    ensures AbsStep(m.LoadInstr(load, d, ea)) == Abs(m).LoadInstr(load, d, ea)
    ensures CoherentStep(m.LoadInstr(load, d, ea))
  {
    hide MmuState.Load, MmuState.AfterLoad, PlainLoad, Machine.LoadInstr, Reference.LoadInstr, Bit, Coherent,
         UnreadableHit, Machine.Throw, Reference.Raise, CachesEmpty;
    var sm := m.r.Supervisor();
    var m' := m.(dmmu := m.dmmu.AfterLoad(load.Width(), ea, sm));
    LoadValid(m, load, d, ea);
    AfterLoadCoherent(m, load.Width(), ea);
    LoadAgrees(m, load.Width(), ea);
    LoadShape(m, load, d, ea);
    match m.dmmu.Load(m.bus, load.Width(), ea, sm)
    case Undefined =>
    case Fault(e) => ThrowRefines(m', e, ea);
    case Value(v, b) => SameCaches(m', m'.(bus := b).SetGpr(d, load.Extend(v)).IncrementPC());
  }

  /** What a load does on either machine, given that the memory answers both alike. */
  lemma LoadShape(m: Machine, load: LoadKind, d: nat, ea: uint32)
    requires m.Valid() && d < GPRS
    requires m.dmmu.Load(m.bus, load.Width(), ea, m.r.Supervisor())
             == PlainLoad(m.dmmu.tlb, Bit(m.r.sr, DME), m.bus, load.Width(), ea, m.r.Supervisor())
    ensures var m' := m.(dmmu := m.dmmu.AfterLoad(load.Width(), ea, m.r.Supervisor()));
            match m.dmmu.Load(m.bus, load.Width(), ea, m.r.Supervisor())
            case Undefined => m.LoadInstr(load, d, ea) == Stuck && Abs(m).LoadInstr(load, d, ea) == Stuck
            case Fault(e) =>
              && m.LoadInstr(load, d, ea) == Continue(m'.Throw(e, ea))
              && Abs(m).LoadInstr(load, d, ea) == Continue(Abs(m).Raise(e, ea))
            case Value(v, b) =>
              && m.LoadInstr(load, d, ea) == m'.(bus := b).Finish(d, load.Extend(v))
              && Abs(m).LoadInstr(load, d, ea) == Abs(m).(bus := b).Finish(d, load.Extend(v))
  {
    hide MmuState.Load, MmuState.AfterLoad, PlainLoad, Machine.Throw, Reference.Raise, Machine.Finish,
         Reference.Finish, Bit, LoadKind.Extend;
  }

  /** Loading leaves the caches coherent and forgets nothing but what they held. */
  lemma AfterLoadCoherent(m: Machine, width: nat, ea: uint32)
    requires m.Valid() && Coherent(m) && width in {1, 2, 4}
    ensures var m' := m.(dmmu := m.dmmu.AfterLoad(width, ea, m.r.Supervisor()));
            m'.Valid() && Coherent(m') && m'.dmmu.tlb == m.dmmu.tlb
    ensures var m' := m.(dmmu := m.dmmu.AfterStore(width, ea, m.r.Supervisor()));
            m'.Valid() && Coherent(m') && m'.dmmu.tlb == m.dmmu.tlb
  {
    MapKeepsSound(m.dmmu, ea, m.r.Supervisor(), false);
    MapKeepsSound(m.dmmu, ea, m.r.Supervisor(), true);
    hide PageOf, CacheSound, Translate, Bit;
  }

  /** The data MMU answers as the reference machine does, exactly but for the excluded load. */
  lemma LoadAgrees(m: Machine, width: nat, ea: uint32)
    requires m.Valid() && Coherent(m) && width in {1, 2, 4}
    ensures m.dmmu.Load(m.bus, width, ea, m.r.Supervisor())
            == PlainLoad(m.dmmu.tlb, Bit(m.r.sr, DME), m.bus, width, ea, m.r.Supervisor())
            <==> !(width == 4 && UnreadableHit(m, ea))
  {
    CachedLoadExact(m.dmmu, m.bus, width, ea, m.r.Supervisor());
    hide PageOf, CacheSound, FetchSound, MmuState.Load, PlainLoad, Bit, Permits, Tlb.Matches, Tlb.Entry;
  }

  lemma CacheHitFacts(u: MmuState, address: uint32, sm: bool)
    requires u.Valid() && CacheSound(u, sm)
    ensures u.cache.Hits(address) ==>
              && u.enabled && u.tlb.Matches(address) && u.cache.frame == PageOf(u.tlb.Entry(address))
              && (Permits(u.kind, u.tlb.Entry(address), sm, false) || Permits(u.kind, u.tlb.Entry(address), sm, true))
  {
    if u.cache.Hits(address) {
      PageOfPage(address);
      SamePage(address, u.cache.page);
    }
  }

  lemma StoreRefines(m: Machine, width: nat, ea: uint32, v: uint32)
    requires m.Valid() && Coherent(m) && width in {1, 2, 4}
    requires !(width == 2 && ea % 2 == 0 && ea < RAM_SIZE
               && m.dmmu.Map(ea, m.r.Supervisor(), true).Mapped?
               && m.dmmu.Map(ea, m.r.Supervisor(), true).phy >= RAM_SIZE)
    ensures AbsStep(m.StoreInstr(width, ea, v)) == Abs(m).StoreInstr(width, ea, v)
    ensures CoherentStep(m.StoreInstr(width, ea, v))
  {
    hide CacheSound, FetchSound, MmuState.Store, MmuState.AfterStore, PlainStore, Translate, WithDsx, Bit;
    var sm := m.r.Supervisor();
    var m' := m.(dmmu := m.dmmu.AfterStore(width, ea, sm));
    StoreValid(m, width, ea, v);
    AfterLoadCoherent(m, width, ea);
    StoreExact(m.dmmu, m.bus, width, ea, v, sm);
    match m.dmmu.Store(m.bus, width, ea, v, sm)
    case Undefined =>
    case Fault(e) => ThrowRefines(m', e, ea);
    case Value(_, b) => SameCaches(m', m'.(bus := b).IncrementPC());
  }

  // ---------------------------------------------------------------- special registers

  lemma ReadSprRefines(m: Machine, d: nat, address: uint16)
    requires m.Valid() && Coherent(m) && d < GPRS
    ensures AbsStep(m.ReadSprInstr(d, address)) == Abs(m).ReadSprInstr(d, address)
    ensures CoherentStep(m.ReadSprInstr(d, address))
  {
    hide ReadSpr, CacheSound, FetchSound;
    SprInstrValid(m, d, address, 0);
    match ReadSpr(m.r, m.immu.tlb, m.dmmu.tlb, address)
    case None =>
    case Some(v) => SameCaches(m, m.SetGpr(d, v).IncrementPC());
  }

  /** The condition under which an ITLB write leaves the remembered fetch page right: exactly
      that it does not remap the entry of that page. */
  lemma ItlbWriteExact(m: Machine, t: Tlb)
    requires m.Valid() && FetchSound(m) && t.Valid()
    ensures var m' := m.(immu := m.immu.(tlb := t, cache := NoPage));
            FetchSound(m') <==>
              (m.fetch.Page? && m.immu.enabled ==> EntryKept(m.immu.tlb, t, SetOf(m.fetch.page)))
  {
    if m.fetch.Page? && m.immu.enabled {
      var p := m.fetch.page;
      var s := SetOf(p);
      assert p % PAGE_SIZE == 0;
      PageOfPage(m.immu.tlb.translates[s]);
      hide PageOf;
      assert m.fetch.frame == PageOf(m.immu.tlb.translates[s]);
    }
  }

  lemma WriteSprRefines(m: Machine, address: uint16, v: uint32)
    requires m.Valid() && Coherent(m) && m.WriteSpr(address, v).Some?
    ensures Abs(m).WriteSpr(address, v) == Some(Abs(m.WriteSpr(address, v).value))
    ensures m.WriteSpr(address, v).value.Valid()
    ensures !m.r.TimerDue() ==> (Coherent(m.WriteSpr(address, v).value) <==> !RemapsRemembered(m, address, v))
    ensures SprAt(address).ItlbReg? ==> m.WriteSpr(address, v).value.r == m.r
    ensures !SprAt(address).ItlbReg? ==> Coherent(m.WriteSpr(address, v).value)
  {
    WriteSprValid(m, address, v);
    var m' := m.WriteSpr(address, v).value;
    hide Bit, Permits, PageOf, Tlb.Matches, Tlb.Entry, EntryKept;
    match SprAt(address)
    case ItlbReg(index) => ItlbWriteExact(m, m.immu.tlb.Write(index, v).value);
    case _ =>
  }

  lemma WriteSprInstrExact(m: Machine, address: uint16, v: uint32)
    requires m.Valid() && Coherent(m)
    ensures AbsStep(m.WriteSprInstr(address, v)) == Abs(m).WriteSprInstr(address, v)
    ensures CoherentStep(m.WriteSprInstr(address, v)) <==> !RemapsRemembered(m, address, v)
  {
    hide Machine.WriteSpr, Reference.WriteSpr, Coherent, SprAt, Tlb.Write, EntryKept, Machine.Throw, Reference.Raise,
         CachesEmpty, Bit;
    WriteSprNone(m, address, v);
    if m.WriteSpr(address, v).Some? {
      WriteSprRefines(m, address, v);
      var m' := m.WriteSpr(address, v).value;
      ThrowRefines(m', TickTimerInterrupt, 0);
      if Coherent(m') { SameCaches(m', m'.IncrementPC()); }
      if Coherent(m'.IncrementPC()) { SameCaches(m'.IncrementPC(), m'); }
    }
  }

  lemma WriteSprNone(m: Machine, address: uint16, v: uint32)
    requires m.Valid()
    ensures m.WriteSpr(address, v).None? <==> Abs(m).WriteSpr(address, v).None?
    ensures SprAt(address).ItlbReg? ==>
              (m.WriteSpr(address, v).Some? <==> m.immu.tlb.Write(SprAt(address).index, v).Some?)
  {
    hide Bit, WithDsx;
  }

  // ---------------------------------------------------------------- every instruction

  lemma CompareRefines(m: Machine, c: Cond, x: uint32, y: uint32)
    requires m.Valid() && Coherent(m)
    ensures AbsStep(m.CompareInstr(c, x, y)) == Abs(m).CompareInstr(c, x, y)
    ensures CoherentStep(m.CompareInstr(c, x, y))
  {
    CompareValid(m, c, x, y);
    FlagOnly(m.r.sr, Holds(c, x, y));
    hide Holds, WithFlag, Bit, CacheSound, FetchSound;
    SameCaches(m, m.(r := m.r.Compared(Holds(c, x, y))).IncrementPC());
  }

  lemma AluRefines(m: Machine, op: AluOp, d: nat, x: uint32, y: uint32)
    requires m.Valid() && Coherent(m) && d < GPRS
    ensures AbsStep(m.AluInstr(op, d, x, y)) == Abs(m).AluInstr(op, d, x, y)
    ensures CoherentStep(m.AluInstr(op, d, x, y))
  {
    hide AluValue, CacheSound, FetchSound;
    AluValid(m, op, d, x, y);
    SameCaches(m, m.SetGpr(d, AluValue(op, x, y)).IncrementPC());
  }

  // ---------------------------------------------------------------- what the four do

  lemma JumpDiffers(m: Machine, x: Instr)
    requires m.Valid() && Decoded(x) && JumpInSlot(Abs(m), x)
    ensures AbsStep(m.ControlInstr(x)) != Abs(m).ControlInstr(x)
  {
    hide Bit, Wrap;
  }

  /** The load completes, or leaves the array, where the reference machine enters an exception with
      translation off. */
  lemma LoadDiffers(m: Machine, d: nat, ea: uint32)
    requires m.Valid() && Coherent(m) && d < GPRS && UnreadableHit(m, ea)
    ensures AbsStep(m.LoadInstr(Lwz, d, ea)) != Abs(m).LoadInstr(Lwz, d, ea)
  {
    CacheHitFacts(m.dmmu, ea, m.r.Supervisor());
    assert !Bit(RESET_SR, DME);
    UnreadableFaults(m, ea);
    hide MmuState.Load, MmuState.AfterLoad, PlainLoad, BusLoad, CacheSound, UnreadableHit, Bit, WithDsx, Wrap,
         LoadKind.Extend;
  }

  lemma UnreadableFaults(m: Machine, ea: uint32)
    requires m.Valid() && Coherent(m) && UnreadableHit(m, ea)
    ensures PlainLoad(m.dmmu.tlb, Bit(m.r.sr, DME), m.bus, 4, ea, m.r.Supervisor()) == Fault(DataPageFault)
    ensures !m.dmmu.Load(m.bus, 4, ea, m.r.Supervisor()).Fault?
  {
    CacheHitFacts(m.dmmu, ea, m.r.Supervisor());
    hide PageOf, CacheSound, FetchSound, Bit, Permits, Tlb.Matches, Tlb.Entry;
  }

  /** The store leaves the array where the reference machine reaches a device or faults. */
  lemma StoreDiffers(m: Machine, x: Instr)
    requires m.Valid() && Decoded(x) && StrayHalfword(Abs(m), x)
    ensures m.Exec(x) == Stuck && Abs(m).Exec(x) != Stuck
  {
    hide Bit, Wrap, Translate, WithDsx;
  }

  // ---------------------------------------------------------------- every instruction, exactly

  lemma ControlExact(m: Machine, x: Instr)
    requires m.Valid() && Coherent(m) && Decoded(x) && IsControl(x)
    ensures Agrees(m.ControlInstr(x), Abs(m).ControlInstr(x)) <==> !JumpInSlot(Abs(m), x)
  {
    hide Machine.ControlInstr, Reference.ControlInstr, Coherent, AbsStep, CoherentStep, JumpInSlot;
    if JumpInSlot(Abs(m), x) { JumpDiffers(m, x); } else { ControlRefines(m, x); }
  }

  lemma LoadExact(m: Machine, load: LoadKind, d: nat, ea: uint32)
    requires m.Valid() && Coherent(m) && d < GPRS
    ensures Agrees(m.LoadInstr(load, d, ea), Abs(m).LoadInstr(load, d, ea)) <==> !(load == Lwz && UnreadableHit(m, ea))
  {
    hide Machine.LoadInstr, Reference.LoadInstr, Coherent, AbsStep, CoherentStep, UnreadableHit;
    if load == Lwz && UnreadableHit(m, ea) { LoadDiffers(m, d, ea); } else { LoadRefines(m, load, d, ea); }
  }

  lemma StoreCase(m: Machine, x: Instr)
    requires m.Valid() && Coherent(m) && Decoded(x) && x.Store?
    ensures Agrees(m.Exec(x), Abs(m).Exec(x)) <==> !StrayHalfword(Abs(m), x)
  {
    if StrayHalfword(Abs(m), x) {
      hide Machine.Exec, Reference.Exec, StrayHalfword, CoherentStep;
      StoreDiffers(m, x);
    } else {
      hide Machine.StoreInstr, Reference.StoreInstr, AbsStep, CoherentStep, Coherent, Translate, Bit;
      StoreRefines(m, x.width, Wrap(m.r.gpr[x.a] + x.i), m.r.gpr[x.b]);
    }
  }

  /** Which of the four an instruction can do. */
  lemma DeviatesBy(m: Machine, x: Instr)
    requires m.Valid() && Decoded(x)
    ensures Deviates(m, x) <==>
              match x
              case Load(load, _, a, i) => load == Lwz && UnreadableHit(m, Wrap(m.r.gpr[a] + i))
              case Store(_, _, _, _) => StrayHalfword(Abs(m), x)
              case Mtspr(a, b, k) => RemapsRemembered(m, SprAddress(m.r.gpr[a], k), m.r.gpr[b])
              case _ => JumpInSlot(Abs(m), x)
    ensures !IsControl(x) ==> !JumpInSlot(Abs(m), x)
  {
    hide UnreadableHit, RemapsRemembered, SprAddress, Translate, Wrap, Bit;
  }

  /** One instruction, of any kind, from any coherent state: the simulator agrees with the
      reference machine and stays coherent exactly if the instruction is none of the four. */
  lemma ExecExact(m: Machine, x: Instr)
    requires m.Valid() && Coherent(m) && Decoded(x)
    ensures Agrees(m.Exec(x), Abs(m).Exec(x)) <==> !Deviates(m, x)
  {
    DeviatesBy(m, x);
    hide Machine.Exec, Reference.Exec, Coherent, Deviates, UnreadableHit, JumpInSlot, StrayHalfword, RemapsRemembered,
         SprAddress, Agrees, Machine.Valid, Wrap, Bit;
    match x
    case Load(_, _, _, _) => LoadCase(m, x);
    case Store(_, _, _, _) => StoreCase(m, x);
    case Mtspr(_, _, _) => WriteCase(m, x);
    case _ => if IsControl(x) { ControlCase(m, x); } else { ComputeCase(m, x); }
  }

  lemma LoadCase(m: Machine, x: Instr)
    requires m.Valid() && Coherent(m) && Decoded(x) && x.Load?
    ensures Agrees(m.Exec(x), Abs(m).Exec(x)) <==> !(x.load == Lwz && UnreadableHit(m, Wrap(m.r.gpr[x.a] + x.i)))
  {
    hide Machine.LoadInstr, Reference.LoadInstr, AbsStep, CoherentStep, Coherent, UnreadableHit, Wrap, Bit;
    LoadExact(m, x.load, x.d, Wrap(m.r.gpr[x.a] + x.i));
  }

  lemma WriteCase(m: Machine, x: Instr)
    requires m.Valid() && Coherent(m) && Decoded(x) && x.Mtspr?
    ensures Agrees(m.Exec(x), Abs(m).Exec(x)) <==>
              !RemapsRemembered(m, SprAddress(m.r.gpr[x.a], x.k), m.r.gpr[x.b])
  {
    hide Machine.WriteSprInstr, Reference.WriteSprInstr, AbsStep, CoherentStep, Coherent, RemapsRemembered,
         SprAddress, Bit;
    WriteSprInstrExact(m, SprAddress(m.r.gpr[x.a], x.k), m.r.gpr[x.b]);
  }

  lemma ControlCase(m: Machine, x: Instr)
    requires m.Valid() && Coherent(m) && Decoded(x) && IsControl(x)
    ensures Agrees(m.Exec(x), Abs(m).Exec(x)) <==> !JumpInSlot(Abs(m), x)
  {
    hide Machine.ControlInstr, Reference.ControlInstr, AbsStep, CoherentStep, Coherent, JumpInSlot, Bit;
    ControlExact(m, x);
  }

  /** The instructions that only compute a register or the flag. */
  lemma ComputeCase(m: Machine, x: Instr)
    requires m.Valid() && Coherent(m) && Decoded(x) && !x.Load? && !x.Store? && !x.Mtspr? && !IsControl(x)
    ensures Agrees(m.Exec(x), Abs(m).Exec(x))
  {
    hide Machine.AluInstr, Machine.CompareInstr, Machine.ReadSprInstr, Machine.Finish, Reference.AluInstr,
         Reference.CompareInstr, Reference.ReadSprInstr, Reference.Finish, AbsStep, CoherentStep, Coherent, SprAddress,
         ImmOperand, Wrap, Bit;
    match x
    case Mfspr(d, a, k) => ReadSprRefines(m, d, SprAddress(m.r.gpr[a], k));
    case AluImm(op, d, a, k) => AluRefines(m, ImmToAlu(op), d, m.r.gpr[a], ImmOperand(op, k));
    case CompareImm(c, a, i) => CompareRefines(m, c, m.r.gpr[a], Wrap(i));
    case Alu(op, d, a, b) => AluRefines(m, op, d, m.r.gpr[a], m.r.gpr[b]);
    case Compare(c, a, b) => CompareRefines(m, c, m.r.gpr[a], m.r.gpr[b]);
    case MovHi(d, k) => MovHiRefines(m, d, k * 0x1_0000);
  }

  /** What a programmer of the reference machine avoids is enough, whatever is cached. */
  lemma ConformsIsEnough(m: Machine, x: Instr)
    requires m.Valid() && Coherent(m) && Decoded(x) && Conforms(Abs(m), x)
    ensures !Deviates(m, x)
  {
    if x.Load? {
      CacheHitFacts(m.dmmu, Wrap(m.r.gpr[x.a] + x.i), m.r.Supervisor());
    }
    hide JumpInSlot, StrayHalfword, CacheSound, FetchSound, Permits, Tlb.Matches, Tlb.Entry, Tlb.Write, SprAt,
         SprAddress, Bit, EntryKept, Wrap;
  }

  // ---------------------------------------------------------------- the four, without the caches

  /** A reference state that stands for some state of the simulator: outside a slot the next
      program counter is the next word. */
  predicate Represented(a: Reference) {
    a.Valid() && (a.slot || a.npc == Wrap(a.pc + 4))
  }

  /** The simulator's state for a with the given caches. */
  function Concrete(a: Reference, fetch: PageCache, data: PageCache): Machine {
    Machine(a.r, a.pc, a.slot, a.npc, fetch,
            MmuState(InstructionMmu, Bit(a.r.sr, IME), a.itlb, NoPage),
            MmuState(DataMmu, Bit(a.r.sr, DME), a.dtlb, data), a.bus)
  }

  lemma ConcreteStands(a: Reference, fetch: PageCache, data: PageCache)
    requires Represented(a) && fetch.Valid() && data.Valid()
    ensures Concrete(a, fetch, data).Valid() && Abs(Concrete(a, fetch, data)) == a
  {
    hide Bit, Wrap;
  }

  lemma NoCaches(a: Reference)
    requires Represented(a)
    ensures var m := Concrete(a, NoPage, NoPage);
            m.Valid() && Coherent(m) && Abs(m) == a
  {
    ConcreteStands(a, NoPage, NoPage);
    hide Bit;
  }

  /** What does not conform deviates in some state that the reference machine cannot tell apart: one
      with the right page remembered. */
  lemma SomeCacheDeviates(a: Reference, x: Instr) returns (m: Machine)
    requires Represented(a) && Decoded(x) && !Conforms(a, x)
    ensures m.Valid() && Coherent(m) && Abs(m) == a && Deviates(m, x)
  {
    hide Reference.Valid, JumpInSlot, WriteOnlyLoad, StrayHalfword, RemapsFetches, Deviates, Coherent, Machine.Valid,
         Concrete, Abs;
    if WriteOnlyLoad(a, x) {
      m := RememberData(a, x);
    } else if RemapsFetches(a, x) {
      m := RememberFetch(a, x);
    } else {
      m := Concrete(a, NoPage, NoPage);
      NoCaches(a);
      ShownDeviates(m, x);
    }
  }

  lemma ShownDeviates(m: Machine, x: Instr)
    requires m.Valid() && Decoded(x) && Abs(m).Valid() && (JumpInSlot(Abs(m), x) || StrayHalfword(Abs(m), x))
    ensures Deviates(m, x)
  {
    hide JumpInSlot, StrayHalfword, UnreadableHit, RemapsRemembered;
  }

  lemma RememberData(a: Reference, x: Instr) returns (m: Machine)
    requires Represented(a) && Decoded(x) && WriteOnlyLoad(a, x)
    ensures m.Valid() && Coherent(m) && Abs(m) == a && Deviates(m, x)
  {
    var ea := Wrap(a.r.gpr[x.a] + x.i);
    var page := Page(PageOf(ea), PageOf(a.dtlb.Entry(ea)));
    PageOfPage(ea);
    PageOfPage(a.dtlb.Entry(ea));
    SamePage(ea, PageOf(ea));
    m := Concrete(a, NoPage, page);
    ConcreteStands(a, NoPage, page);
    hide PageOf, Permits, Bit, Wrap, JumpInSlot, StrayHalfword, RemapsRemembered;
  }

  lemma RememberFetch(a: Reference, x: Instr) returns (m: Machine)
    requires Represented(a) && Decoded(x) && RemapsFetches(a, x)
    ensures m.Valid() && Coherent(m) && Abs(m) == a && Deviates(m, x)
  {
    var t := a.itlb.Write(SprAt(SprAddress(a.r.gpr[x.a], x.k)).index, a.r.gpr[x.b]).value;
    var s :| 0 <= s < USED_SETS && !EntryKept(a.itlb, t, s);
    var page := LivePage(a.itlb, t, s);
    m := Concrete(a, page, NoPage);
    ConcreteStands(a, page, NoPage);
    hide PageOf, SetOf, Permits, EntryKept, SprAt, SprAddress, Tlb.Matches, Tlb.Entry, Bit, JumpInSlot, StrayHalfword,
         UnreadableHit;
  }

  /** The page that set s maps, remembered. */
  lemma LivePage(old_: Tlb, new_: Tlb, s: nat) returns (page: PageCache)
    requires old_.Valid() && new_.Valid() && s < USED_SETS && !EntryKept(old_, new_, s)
    ensures page.Page? && page.Valid() && SetOf(page.page) == s
    ensures Translate(old_, true, InstructionMmu, page.page, false, false) == Mapped(page.frame)
  {
    var mr, tr := old_.matches[s], old_.translates[s];
    page := Page(PageOf(mr), PageOf(tr));
    PageOfPage(mr);
    PageOfPage(tr);
    SamePage(mr, PageOf(mr));
    FrameJoin(tr, PageOf(mr));
    hide Permits, Bit;
  }

  /** Conforming, in terms that software can see, is exactly being safe whatever is cached. */
  lemma ConformsExactly(a: Reference, x: Instr)
    requires Represented(a) && Decoded(x)
    ensures Conforms(a, x) <==> forall m: Machine :: m.Valid() && Coherent(m) && Abs(m) == a ==> !Deviates(m, x)
  {
    hide Reference.Valid, Conforms, Deviates, Coherent, Machine.Valid, Abs;
    if Conforms(a, x) {
      forall m: Machine | m.Valid() && Coherent(m) && Abs(m) == a
        ensures !Deviates(m, x)
      {
        ConformsIsEnough(m, x);
      }
    } else {
      var m := SomeCacheDeviates(a, x);
    }
  }

  lemma MovHiRefines(m: Machine, d: nat, v: uint32)
    requires m.Valid() && Coherent(m) && d < GPRS
    ensures AbsStep(m.Finish(d, v)) == Abs(m).Finish(d, v)
    ensures CoherentStep(m.Finish(d, v))
  {
    hide CacheSound, FetchSound;
    SameCaches(m, m.SetGpr(d, v).IncrementPC());
  }
}
