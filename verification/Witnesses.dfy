/** The four deviations happen: for each a program that, loaded into any system and run from
    reset, ends differently on the simulator and on the reference machine. */
module Witnesses {
  import opened Words
  import opened Exceptions
  import opened Memory
  import opened Translation
  import opened Isa
  import opened Assembler
  import opened Registers
  import opened Machine
  import opened Reference
  import opened Refinement
  import opened Runs
  import opened Programs
  import opened Stepping
  import opened Definedness

  // ---------------------------------------------------------------- (1) a jump in a slot

  function JumpTwice(): seq<Instr> { [Jump(16), Jump(8)] }

  /** The second jump overwrites the first target: the simulator goes on at 8 (for 12 after that),
      the reference machine at 16. */
  lemma JumpInSlotDiffers(m: Machine)
    requires m.Valid()
    ensures Program(JumpTwice())
    ensures Session(m, LoadAndRun(JumpTwice(), 2)).Continue? && Session(m, LoadAndRun(JumpTwice(), 2)).s.pc == 8
    ensures var a := ReferenceSession(Abs(m), LoadAndRun(JumpTwice(), 2));
            a.Continue? && a.s.pc == 16
  {
    hide *;
    AbsValid(m);
    JumpTwiceCodes();
    var c := Started(m, JumpTwice(), 2);
    var s := FirstJump(c, JumpTwice());
    SecondJump(c, s, JumpTwice());
    LeftContinue(RunCycles(c, 2));
    LeftContinue(ReferenceCycles(Abs(c), 2));
  }

  lemma JumpTwiceCodes()
    ensures var p := JumpTwice();
            Program(p) && |p| == 2 && p[0] == Jump(16) && p[1] == Jump(8)
  {
  }

  lemma LeftContinue<S>(s: Step<S>)
    ensures s.Continue? ==> Left(s) == s
    ensures s.Stuck? ==> Left(s) == Stuck
  {
  }

  lemma FirstJump(c: Machine, prog: seq<Instr>) returns (s: Machine)
    requires Fresh(c, prog) && |prog| == 2 && prog[0] == Jump(16)
    ensures Reaches(c, 1, s) && At(s, prog, 1) && s.slot && s.target == 16
  {
    hide *;
    FreshAt(c, prog);
    var t := ExecuteOne(c, prog, 0);
    s := t.JumpTo(16);
    JumpExec(c, t, prog, s);
    StepBoth(c, prog, 0, t, s);
    Extend(c, 0, c, s);
  }

  lemma FreshAt(c: Machine, prog: seq<Instr>)
    requires Fresh(c, prog)
    ensures At(c, prog, 0) && Reaches(c, 0, c) && !c.slot && !c.immu.enabled && |c.r.gpr| == 32
  {
    AbsValid(c);
    hide Coherent, InMemory, Machine.Cycle, Reference.Cycle, Translate;
  }

  lemma JumpExec(c: Machine, t: Machine, prog: seq<Instr>, s: Machine)
    requires At(c, prog, 0) && !c.slot && !c.immu.enabled && Prepared(c, t) && |prog| == 2 && s == t.JumpTo(16)
    ensures Decoded(Jump(16)) && t.Valid() && Abs(t).Valid() && s.Valid()
    ensures t.Exec(Jump(16)) == Continue(s) && Abs(t).Exec(Jump(16)) == Continue(Abs(s))
    ensures At(s, prog, 1) && s.slot && s.target == 16
  {
    AbsValid(t);
    SameCaches(t, s);
    hide Coherent, InMemory, Bit;
  }

  lemma SecondJump(c: Machine, s: Machine, prog: seq<Instr>)
    requires Reaches(c, 1, s) && At(s, prog, 1) && s.slot && s.target == 16 && prog[1] == Jump(8)
    ensures Abs(c).Valid()
    ensures RunCycles(c, 2).Continue? && RunCycles(c, 2).s.pc == 8
    ensures ReferenceCycles(Abs(c), 2).Continue? && ReferenceCycles(Abs(c), 2).s.pc == 16
  {
    hide *;
    ReachesValid(c, 1, s);
    AtFacts(s, prog, 1);
    var t := ExecuteOne(s, prog, 1);
    LastCycle(c, 1, s);
    JumpOver(s, t);
  }

  lemma ReachesValid(c: Machine, n: nat, s: Machine)
    requires Reaches(c, n, s)
    ensures c.Valid() && s.Valid() && Abs(c).Valid() && Abs(s).Valid()
  {
    hide Machine.Cycle, Reference.Cycle;
    AbsValid(c);
    AbsValid(s);
  }

  lemma JumpOver(s: Machine, t: Machine)
    requires s.Valid() && Prepared(s, t) && s.pc == 4 && s.slot && s.target == 16
    ensures Decoded(Jump(8)) && t.Valid() && Abs(t).Valid()
    ensures t.Exec(Jump(8)).Continue? && t.Exec(Jump(8)).s.pc == 8
    ensures Abs(t).Exec(Jump(8)).Continue? && Abs(t).Exec(Jump(8)).s.pc == 16
  {
    AbsValid(t);
    hide Coherent, Bit;
  }

  // ---------------------------------------------------------------- (2) a page that may only be written

  /** Map page 0 to itself for supervisor writes only, turn the data MMU on (SM and DME), store a
      word to the page and load it back. */
  function StoreThenLoad(): seq<Instr> {
    Setup(true, 0, 0x200, 0x21) + [Store(4, 0, 0, 0x1000), Load(Lwz, 4, 0, 0x1000)]
  }

  /** The simulator loads the word; the reference machine takes a data page fault. */
  lemma WriteOnlyLoadDiffers(m: Machine)
    requires m.Valid()
    ensures Program(StoreThenLoad())
    ensures var s := Session(m, LoadAndRun(StoreThenLoad(), 9));
            s.Continue? && s.s.pc == 36
    ensures var a := ReferenceSession(Abs(m), LoadAndRun(StoreThenLoad(), 9));
            a.Continue? && a.s.pc == Vector(DataPageFault)
  {
    hide *;
    AbsValid(m);
    StoreThenLoadCodes();
    var prog := StoreThenLoad();
    var c := Started(m, prog, 9);
    var s := RunSetup(c, prog, true, 0, 0x200, 0x21);
    var s' := StoreAlone(c, s, prog);
    LoadAlone(c, s', prog);
    LeftContinue(RunCycles(c, 9));
    LeftContinue(ReferenceCycles(Abs(c), 9));
  }

  lemma StoreThenLoadCodes()
    ensures var p := StoreThenLoad();
            && Program(p) && |p| == 9 && Setup(true, 0, 0x200, 0x21) <= p
            && p[7] == Store(4, 0, 0, 0x1000) && p[8] == Load(Lwz, 4, 0, 0x1000)
  {
  }

  /** Translation of an address in page 0 by a TLB that maps that page to itself. */
  lemma PageZero(t: Tlb, kind: Kind, tr: uint32, a: uint32, sm: bool, write: bool)
    requires t.Valid() && t.matches[0] == 1 && t.translates[0] == tr && tr < 0x2000 && a < 0x2000
    ensures t.Matches(a) && t.Entry(a) == tr
    ensures Permits(kind, tr, sm, write) ==> Translate(t, true, kind, a, sm, write) == Mapped(a)
  {
    assert PageOf(tr) == 0 && SetOf(a) == 0 && Bit(1, 1);
    hide Permits;
  }

  /** With the data MMU on over an identity entry, the instruction MMU off. */
  lemma DataAt(c: Machine, s: Machine, prog: seq<Instr>, tr: uint32)
    requires Fresh(c, prog) && Translating(c, s, true, tr, 0x21) && 7 < |prog|
    ensures Reaches(c, 7, s) && At(s, prog, 7) && !s.slot && |s.r.gpr| == 32 && s.r.gpr[0] == 0 && s.r.Supervisor()
    ensures s.Valid() && s.dmmu.enabled && !s.immu.enabled
    ensures TlbOf(s, true).Valid() && TlbOf(s, true).matches[0] == 1 && TlbOf(s, true).translates[0] == tr
  {
    hide *;
    DataBits();
    TranslatingFacts(c, s, prog, true, tr, 0x21);
    IdentityOff(s);
    AtHolds(s, prog, 7);
  }

  lemma DataBits()
    ensures Bit(0x21, SM) && Bit(0x21, DME) && !Bit(0x21, IME)
  {
  }

  lemma TranslatingFacts(c: Machine, s: Machine, prog: seq<Instr>, data: bool, tr: uint32, sr: uint16)
    requires Fresh(c, prog) && Translating(c, s, data, tr, sr)
    ensures Reaches(c, 7, s) && s.Valid() && Coherent(s) && s.pc == 28 && !s.slot && s.r.ttmr == 0
    ensures InMemory(s.bus.mem, prog)
    ensures |s.r.gpr| == 32 && s.r.gpr[0] == 0 && s.r.Supervisor() == Bit(sr, SM) && s.r.sr == sr
    ensures s.r.gpr[5] == 0
    ensures s.dmmu.enabled == Bit(sr, DME) && s.immu.enabled == Bit(sr, IME)
    ensures TlbOf(s, data).Valid() && TlbOf(s, data).matches[0] == 1 && TlbOf(s, data).translates[0] == tr
  {
    hide Reaches, Coherent, InMemory, Bit, Translate, Machine.Valid;
  }

  lemma IdentityOff(s: Machine)
    requires s.Valid() && !s.immu.enabled
    ensures s.immu.tlb.Valid()
    ensures Translate(s.immu.tlb, s.immu.enabled, InstructionMmu, s.pc, false, false) == Mapped(s.pc)
  {
    hide Bit;
  }

  lemma AtHolds(s: Machine, prog: seq<Instr>, k: nat)
    requires s.Valid() && Coherent(s) && InMemory(s.bus.mem, prog) && k < |prog| && s.pc == 4 * k && s.r.ttmr == 0
    requires s.immu.tlb.Valid()
    requires Translate(s.immu.tlb, s.immu.enabled, InstructionMmu, s.pc, false, false) == Mapped(s.pc)
    ensures At(s, prog, k)
  {
    hide Coherent, InMemory, Translate, Machine.Valid;
  }

  lemma StoreAlone(c: Machine, s: Machine, prog: seq<Instr>) returns (s': Machine)
    requires Fresh(c, prog) && Translating(c, s, true, 0x200, 0x21) && |prog| == 9
    requires prog[7] == Store(4, 0, 0, 0x1000)
    ensures Reaches(c, 8, s') && At(s', prog, 8) && ReadyToLoad(s')
  {
    hide *;
    DataAt(c, s, prog, 0x200);
    DataTlb(s);
    WritableZero(s);
    s' := StoreStep(s, prog, 7, 0x1000);
    Extend(c, 7, s, s');
    StoredAt(s, s', prog);
  }

  /** Page 0 is remembered and not readable; the next load is at 32. */
  predicate ReadyToLoad(s: Machine) {
    && s.Valid() && s.r.gpr[0] == 0 && s.r.Supervisor() && s.pc == 32 && !s.slot
    && s.dmmu.cache.Hits(0x1000) && s.dmmu.tlb.translates[0] == 0x200 && SetOf(0x1000) == 0
  }

  lemma DataTlb(s: Machine)
    ensures TlbOf(s, true) == s.dmmu.tlb && TlbOf(s, false) == s.immu.tlb
  {
  }

  lemma WritableZero(s: Machine)
    requires s.Valid() && s.r.Supervisor() && s.dmmu.enabled && s.dmmu.tlb.matches[0] == 1
    requires s.dmmu.tlb.translates[0] == 0x200
    ensures Translate(s.dmmu.tlb, s.dmmu.enabled, DataMmu, 0x1000, s.r.Supervisor(), true) == Mapped(0x1000)
  {
    assert Permits(DataMmu, 0x200, true, true);
    PageZero(s.dmmu.tlb, DataMmu, 0x200, 0x1000, true, true);
    hide Permits, Bit;
  }

  lemma StoredAt(s: Machine, s': Machine, prog: seq<Instr>)
    requires At(s, prog, 7) && Moved(s, s') && s'.r == s.r.(ttcr := s'.r.ttcr)
    requires InMemory(s'.bus.mem, prog) && |prog| == 9
    requires s'.immu == s.immu.(cache := s'.immu.cache) && !s.immu.enabled
    requires s.r.gpr[0] == 0 && s.r.Supervisor() && s.dmmu.tlb.translates[0] == 0x200 && s.dmmu.enabled
    requires Translate(s.dmmu.tlb, s.dmmu.enabled, DataMmu, 0x1000, s.r.Supervisor(), true) == Mapped(0x1000)
    requires s'.dmmu == s.dmmu.AfterStore(4, 0x1000, s.r.Supervisor())
    ensures At(s', prog, 8) && ReadyToLoad(s')
  {
    hide Coherent, InMemory, Permits, Bit;
  }

  lemma LoadAlone(c: Machine, s: Machine, prog: seq<Instr>)
    requires Reaches(c, 8, s) && At(s, prog, 8) && prog[8] == Load(Lwz, 4, 0, 0x1000) && ReadyToLoad(s)
    ensures Abs(c).Valid()
    ensures RunCycles(c, 9).Continue? && RunCycles(c, 9).s.pc == 36
    ensures ReferenceCycles(Abs(c), 9).Continue? && ReferenceCycles(Abs(c), 9).s.pc == Vector(DataPageFault)
  {
    hide *;
    ReachesValid(c, 8, s);
    var t := ExecuteOne(s, prog, 8);
    LastCycle(c, 8, s);
    LoadHit(s, t);
  }

  lemma LoadHit(s: Machine, t: Machine)
    requires ReadyToLoad(s) && Prepared(s, t)
    ensures t.Valid() && Abs(t).Valid() && Decoded(Load(Lwz, 4, 0, 0x1000))
    ensures t.Exec(Load(Lwz, 4, 0, 0x1000)).Continue? && t.Exec(Load(Lwz, 4, 0, 0x1000)).s.pc == 36
    ensures var a := Abs(t).Exec(Load(Lwz, 4, 0, 0x1000));
            a.Continue? && a.s.pc == Vector(DataPageFault)
  {
    AbsValid(t);
    assert !Permits(DataMmu, 0x200, true, false);
    UnreadableFaults(t, 0x1000);
    LoadUndefinedExactly(t, 4, 0x1000);
    hide Coherent, MmuState.Load, MmuState.AfterLoad, PlainLoad, Permits, WithDsx, Bit;
  }

  // ---------------------------------------------------------------- (3) a stray halfword

  /** Map page 0 to the serial device for supervisor writes and store a halfword at address 0. */
  function StoreToDevice(): seq<Instr> {
    Setup(true, 0x9000, 0x200, 0x21) + [Store(2, 0, 0, 0)]
  }

  /** The simulator writes outside its array; the reference machine takes a bus error. */
  lemma StrayHalfwordDiffers(m: Machine)
    requires m.Valid()
    ensures Program(StoreToDevice())
    ensures Session(m, LoadAndRun(StoreToDevice(), 8)) == Stuck
    ensures var a := ReferenceSession(Abs(m), LoadAndRun(StoreToDevice(), 8));
            a.Continue? && a.s.pc == Vector(BusError)
  {
    hide *;
    AbsValid(m);
    StoreToDeviceCodes();
    var prog := StoreToDevice();
    var c := Started(m, prog, 8);
    var s := RunSetup(c, prog, true, 0x9000, 0x200, 0x21);
    StrayAlone(c, s, prog);
    LeftContinue(RunCycles(c, 8));
    LeftContinue(ReferenceCycles(Abs(c), 8));
  }

  lemma StoreToDeviceCodes()
    ensures var p := StoreToDevice();
            Program(p) && |p| == 8 && Setup(true, 0x9000, 0x200, 0x21) <= p && p[7] == Store(2, 0, 0, 0)
  {
  }

  lemma StrayAlone(c: Machine, s: Machine, prog: seq<Instr>)
    requires Fresh(c, prog) && Translating(c, s, true, 0x9000_0200, 0x21) && |prog| == 8 && prog[7] == Store(2, 0, 0, 0)
    ensures c.Valid() && Abs(c).Valid() && RunCycles(c, 8) == Stuck
    ensures ReferenceCycles(Abs(c), 8).Continue? && ReferenceCycles(Abs(c), 8).s.pc == Vector(BusError)
  {
    hide *;
    DataAt(c, s, prog, 0x9000_0200);
    DataTlb(s);
    ReachesValid(c, 7, s);
    var t := ExecuteOne(s, prog, 7);
    LastCycle(c, 7, s);
    StrayExec(s, t);
  }

  lemma StrayExec(s: Machine, t: Machine)
    requires s.Valid() && Prepared(s, t) && s.r.gpr[0] == 0 && s.r.Supervisor() && s.dmmu.enabled
    requires s.dmmu.tlb.matches[0] == 1 && s.dmmu.tlb.translates[0] == 0x9000_0200
    ensures t.Valid() && Abs(t).Valid() && Decoded(Store(2, 0, 0, 0)) && t.Exec(Store(2, 0, 0, 0)) == Stuck
    ensures var a := Abs(t).Exec(Store(2, 0, 0, 0));
            a.Continue? && a.s.pc == Vector(BusError)
  {
    AbsValid(t);
    DevicePage(s.dmmu.tlb);
    hide Coherent, Permits, Tlb.Matches, Tlb.Entry, WithDsx, Bit;
  }

  lemma DevicePage(t: Tlb)
    requires t.Valid() && t.matches[0] == 1 && t.translates[0] == 0x9000_0200
    ensures Translate(t, true, DataMmu, 0, true, true) == Mapped(0x9000_0000)
  {
    assert PageOf(0x9000_0200) == 0x9000_0000 && SetOf(0) == 0 && Bit(1, 1);
    assert Permits(DataMmu, 0x9000_0200, true, true);
    hide Permits, Bit;
  }

  // ---------------------------------------------------------------- (4) a remapped page

  /** Map page 0 to itself for fetches and turn the instruction MMU on (SM and IME). Then put a
      word that decodes as a jump at 0x2028, point the running page at that frame, and go on: at
      address 40 frame 0 has an addition to r5, frame 0x2000 the jump. */
  function RemapItself(): seq<Instr> {
    Setup(false, 0, 0x40, 0x41) +
    [AluImm(Addi, 2, 0, 0x2040), Store(4, 0, 0, 0x2028), Mtspr(0, 2, 0x1280), AluImm(Addi, 5, 0, 5)]
  }

  /** The simulator executes the addition, the reference machine the jump. */
  lemma RemapDiffers(m: Machine)
    requires m.Valid()
    ensures Program(RemapItself())
    ensures var s := Session(m, LoadAndRun(RemapItself(), 11));
            s.Continue? && s.s.Valid() && s.s.r.gpr[5] == 5 && !s.s.slot
    ensures var a := ReferenceSession(Abs(m), LoadAndRun(RemapItself(), 11));
            a.Continue? && a.s.Valid() && a.s.r.gpr[5] == 0 && a.s.slot
  {
    hide *;
    AbsValid(m);
    RemapItselfCodes();
    var prog := RemapItself();
    var c := Started(m, prog, 11);
    var s7 := RunSetup(c, prog, false, 0, 0x40, 0x41);
    var s9 := WriteNewFrame(c, s7, prog);
    var s10 := Remap(c, s9, prog);
    LeftContinue(RunCycles(c, 11));
    LeftContinue(ReferenceCycles(Abs(c), 11));
  }

  lemma RemapItselfCodes()
    ensures var p := RemapItself();
            && Program(p) && |p| == 11 && Setup(false, 0, 0x40, 0x41) <= p
            && p[7] == AluImm(Addi, 2, 0, 0x2040) && p[8] == Store(4, 0, 0, 0x2028)
            && p[9] == Mtspr(0, 2, 0x1280) && p[10] == AluImm(Addi, 5, 0, 5)
  {
  }

  /** The instruction MMU is on and maps page 0 to itself; the data MMU is off. */
  predicate FetchesMapped(s: Machine) {
    && s.Valid() && s.r.gpr[0] == 0 && s.r.gpr[5] == 0 && s.immu.enabled && !s.dmmu.enabled
    && s.immu.tlb.matches[0] == 1 && s.immu.tlb.translates[0] == 0x40 && !s.slot
  }

  lemma MappedAt(s: Machine, prog: seq<Instr>, k: nat)
    requires FetchesMapped(s) && Coherent(s) && InMemory(s.bus.mem, prog)
    requires k < |prog| && s.pc == 4 * k && s.r.ttmr == 0
    ensures At(s, prog, k)
  {
    assert Permits(InstructionMmu, 0x40, false, false);
    PageZero(s.immu.tlb, InstructionMmu, 0x40, s.pc, false, false);
    hide Coherent, Permits, Bit, Decode;
  }

  lemma SetupMapped(c: Machine, s: Machine, prog: seq<Instr>)
    requires Fresh(c, prog) && Translating(c, s, false, 0x40, 0x41)
    ensures Reaches(c, 7, s) && FetchesMapped(s) && Coherent(s) && InMemory(s.bus.mem, prog) && s.pc == 28
    ensures s.r.ttmr == 0 && |s.r.gpr| == 32
  {
    hide *;
    FetchBits();
    TranslatingFacts(c, s, prog, false, 0x40, 0x41);
    DataTlb(s);
    IsMapped(s);
  }

  lemma FetchBits()
    ensures Bit(0x41, IME) && !Bit(0x41, DME)
  {
  }

  lemma IsMapped(s: Machine)
    requires s.Valid() && s.r.gpr[0] == 0 && s.r.gpr[5] == 0 && s.immu.enabled && !s.dmmu.enabled
    requires s.immu.tlb.matches[0] == 1 && s.immu.tlb.translates[0] == 0x40 && !s.slot
    ensures FetchesMapped(s)
  {
  }

  /** Instructions 7 and 8. */
  lemma WriteNewFrame(c: Machine, s: Machine, prog: seq<Instr>) returns (s': Machine)
    requires Fresh(c, prog) && Translating(c, s, false, 0x40, 0x41) && |prog| == 11
    requires prog[7] == AluImm(Addi, 2, 0, 0x2040) && prog[8] == Store(4, 0, 0, 0x2028)
    ensures Reaches(c, 9, s') && At(s', prog, 9) && NewFrameReady(s')
  {
    hide *;
    SetupMapped(c, s, prog);
    MappedAt(s, prog, 7);
    AddFacts(s);
    var s8 := ComputeStep(s, prog, 7, 2, 0x2040);
    Extend(c, 7, s, s8);
    AddedAt(s, s8, prog);
    AtFacts(s8, prog, 8);
    s' := StoreStep(s8, prog, 8, 0x2028);
    Extend(c, 8, s8, s');
    FrameWritten(s8, s', prog);
  }

  lemma AddFacts(s: Machine)
    requires FetchesMapped(s)
    ensures !s.slot && 2 < GPRS && s.r.Valid() && Computes(AluImm(Addi, 2, 0, 0x2040), s.r, 2, 0x2040)
  {
    hide Bit;
  }

  lemma AddedAt(s: Machine, s': Machine, prog: seq<Instr>)
    requires FetchesMapped(s) && s.pc == 28 && s.r.ttmr == 0 && InMemory(s.bus.mem, prog) && 8 < |prog| && Moved(s, s')
    requires s'.r == s.r.(gpr := s.r.gpr[2 := 0x2040], ttcr := s'.r.ttcr) && s'.bus == s.bus && s'.dmmu == s.dmmu
    requires s'.immu == s.immu.(cache := s'.immu.cache)
    ensures FetchesMapped(s') && At(s', prog, 8) && s'.r.gpr[0] == 0 && s'.r.gpr[2] == 0x2040 && !s'.slot
    ensures s'.dmmu.tlb.Valid()
    ensures Translate(s'.dmmu.tlb, s'.dmmu.enabled, DataMmu, 0x2028, s'.r.Supervisor(), true) == Mapped(0x2028)
  {
    hide Coherent, InMemory, Bit;
    MappedAt(s', prog, 8);
  }

  /** Ready to remap: the new frame holds a zero word at 0x2028. */
  predicate NewFrameReady(s: Machine) {
    FetchesMapped(s) && s.r.gpr[2] == 0x2040 && s.r.ttmr == 0 && s.pc == 36 && Get32(s.bus.mem, 0x2028) == 0
  }

  lemma FrameWritten(s: Machine, s': Machine, prog: seq<Instr>)
    requires FetchesMapped(s) && s.r.gpr[2] == 0x2040 && s.r.ttmr == 0 && s.pc == 32 && 9 < |prog| && Moved(s, s')
    requires s'.r == s.r.(ttcr := s'.r.ttcr) && s'.immu == s.immu.(cache := s'.immu.cache)
    requires |s.bus.mem| == RAM_SIZE && s'.bus.mem == Put32(s.bus.mem, 0x2028, 0) && InMemory(s'.bus.mem, prog)
    requires s'.dmmu == s.dmmu.AfterStore(4, 0x2028, s.r.Supervisor())
    ensures At(s', prog, 9) && NewFrameReady(s')
  {
    hide *;
    ZeroStored(s.bus.mem);
    StillMapped(s, s');
    MappedAt(s', prog, 9);
  }

  lemma ZeroStored(mem: seq<uint8>)
    requires |mem| == RAM_SIZE
    ensures Get32(Put32(mem, 0x2028, 0), 0x2028) == 0
  {
    GetPut(mem, 0x2028, 4, 0);
  }

  lemma StillMapped(s: Machine, s': Machine)
    requires FetchesMapped(s) && s.r.ttmr == 0 && s.pc == 32 && s.r.gpr[2] == 0x2040 && Moved(s, s')
    requires s'.r == s.r.(ttcr := s'.r.ttcr) && s'.immu == s.immu.(cache := s'.immu.cache)
    requires s'.dmmu == s.dmmu.AfterStore(4, 0x2028, s.r.Supervisor())
    ensures FetchesMapped(s') && Coherent(s') && s'.pc == 36 && s'.r.ttmr == 0 && s'.r.gpr[2] == 0x2040
    ensures Get32(s'.bus.mem, 0x2028) == 0 ==> NewFrameReady(s')
  {
    hide Coherent, Get32, Bit;
  }

  /** Instruction 9, and the cycle after it. */
  lemma Remap(c: Machine, s: Machine, prog: seq<Instr>) returns (s': Machine)
    requires Reaches(c, 9, s) && At(s, prog, 9) && NewFrameReady(s) && |prog| == 11
    requires prog[9] == Mtspr(0, 2, 0x1280) && prog[10] == AluImm(Addi, 5, 0, 5)
    ensures Abs(c).Valid()
    ensures RunCycles(c, 11).Continue?
    ensures var r := RunCycles(c, 11).s;
            r.Valid() && r.r.gpr[5] == 5 && !r.slot
    ensures ReferenceCycles(Abs(c), 11).Continue?
    ensures var r := ReferenceCycles(Abs(c), 11).s;
            r.Valid() && r.r.gpr[5] == 0 && r.slot
  {
    hide *;
    ReachesValid(c, 9, s);
    var t := ExecuteOne(s, prog, 9);
    RemapFacts(s, t);
    RemapState(t, prog[9], 0x2040);
    s' := t.Exec(prog[9]).s;
    StepBoth(s, prog, 9, t, s');
    Extend(c, 9, s, s');
    LastCycle(c, 10, s');
    AfterRemap(s, t, s', prog);
  }

  lemma RemapFacts(s: Machine, t: Machine)
    requires NewFrameReady(s) && Prepared(s, t)
    ensures t.Valid() && Coherent(t) && !t.r.TimerDue() && Abs(t).Valid()
    ensures t.r.gpr[2] == 0x2040 && Decoded(Mtspr(0, 2, 0x1280))
    ensures SprAt(SprAddress(t.r.gpr[0], 0x1280)) == ItlbReg(TRANSLATE_OFFSET + SetOf(t.pc))
  {
    hide *;
    ReadyFacts(s);
    PreparedFacts(s, t);
    PreparedPlace(s, t);
    AbsValid(t);
    PlainAddress(0x1280);
    TranslateRegister(t);
  }

  lemma ReadyFacts(s: Machine)
    requires NewFrameReady(s)
    ensures s.Valid() && s.r.gpr[0] == 0 && s.r.gpr[2] == 0x2040 && s.r.ttmr == 0 && s.pc == 36 && !s.slot
  {
    hide Get32, Bit;
  }

  lemma PreparedPlace(s: Machine, t: Machine)
    requires Prepared(s, t)
    ensures t.pc == s.pc && t.fetch.Hits(t.pc)
  {
    hide Coherent, Machine.Valid;
  }

  lemma TranslateRegister(t: Machine)
    requires t.pc == 36 && t.r.ttmr == 0
    ensures SprAt(0x1280) == ItlbReg(TRANSLATE_OFFSET + SetOf(t.pc)) && !t.r.TimerDue()
    ensures Decoded(Mtspr(0, 2, 0x1280))
  {
    assert !Bit(0, TIMER_PENDING);
    hide Bit;
  }

  lemma AfterRemap(s: Machine, t: Machine, s': Machine, prog: seq<Instr>)
    requires NewFrameReady(s) && At(s, prog, 9) && Prepared(s, t) && |prog| == 11 && prog[10] == AluImm(Addi, 5, 0, 5)
    requires Remapped(t, 0x2040, s') && s'.pc == Abs(t).npc && s'.r == t.r && !s'.slot
    ensures s'.Valid() && Abs(s').Valid()
    ensures s'.Cycle().Continue? && s'.Cycle().s.Valid() && s'.Cycle().s.r.gpr[5] == 5 && !s'.Cycle().s.slot
    ensures Abs(s').Cycle().Continue?
    ensures var r := Abs(s').Cycle().s;
            r.Valid() && r.r.gpr[5] == 0 && r.slot
  {
    hide *;
    var u := s'.(r := s'.r.Ticked());
    AtFacts(s, prog, 9);
    AfterFacts(s, t, s', u, prog);
    StaleState(t, 0x2040, u);
    ZeroIsJump();
    MachineCycle(s', u);
    CycleOf(Abs(s'), 0, Jump(0));
    LastExec(u);
  }

  lemma ZeroIsJump()
    ensures Decode(0) == Jump(0)
  {
  }

  lemma AfterFacts(s: Machine, t: Machine, s': Machine, u: Machine, prog: seq<Instr>)
    requires NewFrameReady(s) && At(s, prog, 9) && Prepared(s, t) && |prog| == 11 && prog[10] == AluImm(Addi, 5, 0, 5)
    requires Remapped(t, 0x2040, s') && s'.pc == Abs(t).npc && s'.r == t.r && !s'.slot
    requires u == s'.(r := s'.r.Ticked())
    ensures t.Valid() && Coherent(t) && t.immu.enabled && t.fetch.Hits(t.pc) && t.fetch.frame == 0
    ensures Permits(InstructionMmu, 0x2040, false, false) && PageOf(0x2040) == 0x2000 && 0x2000 < RAM_SIZE
    ensures u.pc == 40 && u.pc % 4 == 0 && PageOf(40) == PageOf(t.pc) && 40 % PAGE_SIZE == 40
    ensures Remapped(t, 0x2040, u) && !u.r.TickRaises() && u.Valid() && Abs(u).Valid() && s'.Valid() && Abs(s').Valid()
    ensures Abs(u) == Abs(s').(r := Abs(s').r.Ticked()) && !Abs(s').r.Ticked().TickRaises()
    ensures u.bus == t.bus && |t.bus.mem| == RAM_SIZE && Get32(t.bus.mem, 0x2028) == 0
    ensures Decode(Get32(t.bus.mem, 40)) == AluImm(Addi, 5, 0, 5)
    ensures |u.r.gpr| == 32 && u.r.gpr[0] == 0 && u.r.gpr[5] == 0 && !u.slot
  {
    FrameZero(s, t);
    QuietTick(s'.r);
    AbsValid(s');
    TickedValid(s');
    AbsValid(u);
    hide Coherent, Get32, Decode, Permits, Regs.Ticked, Regs.TickRaises, Bit;
    assert Permits(InstructionMmu, 0x2040, false, false) by { FrameBits(); }
  }

  lemma FrameBits()
    ensures Permits(InstructionMmu, 0x2040, false, false) && Permits(InstructionMmu, 0x40, false, false)
  {
  }

  lemma QuietTick(r: Regs)
    requires r.ttmr == 0
    ensures !r.Ticked().TickRaises() && r.Ticked() == r.(ttcr := r.Ticked().ttcr)
  {
  }

  /** The remembered fetch page is frame 0. */
  lemma FrameZero(s: Machine, t: Machine)
    requires NewFrameReady(s) && Prepared(s, t)
    ensures t.Valid() && t.fetch.Page? && t.fetch.frame == 0
  {
    FrameBits();
    assert PageOf(36) == 0;
    PageZero(t.immu.tlb, InstructionMmu, 0x40, 0, false, false);
    hide CacheSound, Permits, Bit, Get32;
  }

  lemma LastExec(u: Machine)
    requires u.Valid() && Abs(u).Valid() && u.r.gpr[0] == 0 && u.r.gpr[5] == 0 && !u.slot
    ensures Decoded(AluImm(Addi, 5, 0, 5)) && Decoded(Jump(0))
    ensures var s := u.Exec(AluImm(Addi, 5, 0, 5));
            s.Continue? && s.s.Valid() && s.s.r.gpr[5] == 5 && !s.s.slot
    ensures var a := Abs(u).Exec(Jump(0));
            a.Continue? && a.s.Valid() && a.s.r.gpr[5] == 0 && a.s.slot
  {
    hide Bit;
  }
}
