/** Running short programs on both machines at once: the cycles of a few kinds of instruction, a
    common prologue that sets up a translation, and starting from any system. */
module Stepping {
  import opened Words
  import opened Memory
  import opened Bus
  import opened Translation
  import opened Isa
  import opened Assembler
  import opened Registers
  import opened Machine
  import opened Reference
  import opened Refinement
  import opened Runs
  import opened Programs

  // ---------------------------------------------------------------- stepping both machines

  /** Memory holds a short program from address 0 on. */
  predicate InMemory(mem: seq<uint8>, prog: seq<Instr>) {
    && |mem| == RAM_SIZE && |prog| <= 64
    && forall k :: 0 <= k < |prog| ==> Decode(Get32(mem, 4 * k)) == prog[k]
  }

  /** s is about to run instruction k, fetched from where it stands, with the timer off. */
  predicate At(s: Machine, prog: seq<Instr>, k: nat) {
    && s.Valid() && Coherent(s) && InMemory(s.bus.mem, prog) && k < |prog|
    && s.pc == 4 * k && s.r.ttmr == 0
    && Translate(s.immu.tlb, s.immu.enabled, InstructionMmu, s.pc, false, false) == Mapped(s.pc)
  }

  /** Both machines, started alike, have come in n cycles from c to s. */
  predicate Reaches(c: Machine, n: nat, s: Machine) {
    && c.Valid() && s.Valid()
    && RunCycles(c, n) == Continue(s) && ReferenceCycles(Abs(c), n) == Continue(Abs(s))
  }

  lemma {:induction false} ReferenceSplit(a: Reference, j: nat, k: nat)
    requires a.Valid()
    ensures ReferenceCycles(a, j + k)
            == match ReferenceCycles(a, j) case Continue(b) => ReferenceCycles(b, k) case stop => stop
    decreases j
  {
    hide Reference.Cycle, Reference.Valid;
    if j > 0 {
      CycleKeepsValid(a);
      if a.Cycle().Continue? { ReferenceSplit(a.Cycle().s, j - 1, k); }
    }
  }

  /** The cycle after n cycles decides the run of n + 1. */
  lemma LastCycle(c: Machine, n: nat, s: Machine)
    requires Reaches(c, n, s)
    ensures RunCycles(c, n + 1) == s.Cycle() && ReferenceCycles(Abs(c), n + 1) == Abs(s).Cycle()
  {
    AbsValid(c);
    hide Machine.Cycle, Reference.Cycle, Machine.Valid, Reference.Valid, Abs;
    RunSplit(c, n, 1);
    ReferenceSplit(Abs(c), n, 1);
    OneCycle(s);
  }

  lemma OneCycle(s: Machine)
    requires s.Valid()
    ensures RunCycles(s, 1) == s.Cycle() && ReferenceCycles(Abs(s), 1) == Abs(s).Cycle()
  {
    AbsValid(s);
    hide Machine.Cycle, Reference.Cycle, Machine.Valid, Abs;
    CycleValid(s);
    CycleKeepsValid(Abs(s));
  }

  /** t is s with the timer ticked and the instruction fetched. */
  predicate Prepared(s: Machine, t: Machine) {
    && t == s.(r := s.r.(ttcr := t.r.ttcr), fetch := t.fetch, immu := s.immu.(cache := t.immu.cache))
    && t.Valid() && Coherent(t) && t.fetch.Hits(t.pc)
  }

  lemma Tick(s: Machine)
    requires s.Valid() && Coherent(s) && s.r.ttmr == 0
    ensures var u := s.(r := s.r.Ticked());
            && !u.r.TickRaises() && u == s.(r := s.r.(ttcr := u.r.ttcr)) && u.Valid() && Coherent(u)
  {
    TickRefines(s);
    hide CacheSound, FetchSound, Bit;
  }

  lemma FetchFills(u: Machine)
    requires u.Valid() && Coherent(u) && u.pc % 4 == 0 && u.pc < RAM_SIZE
    requires Translate(u.immu.tlb, u.immu.enabled, InstructionMmu, u.pc, false, false) == Mapped(u.pc)
    ensures u.pc + 3 < RAM_SIZE && u.Fetch().Word? && u.Fetch().w == Get32(u.bus.mem, u.pc)
    ensures Prepared(u, u.Fetch().s)
  {
    AlignedEnd(u.pc, 4);
    FetchRefines(u);
    FetchKeeps(u);
    TranslateMode(u.immu.tlb, u.immu.enabled, u.pc, u.r.Supervisor());
    FetchShape(u);
    hide CacheSound, FetchSound, Machine.Fetch, PageOf, SetOf, Permits, Get32, Bit;
  }

  lemma FetchShape(u: Machine)
    requires u.Valid() && u.Fetch().Word?
    requires var t := u.immu.Map(u.pc, u.r.Supervisor(), false);
             t.Mapped? && t.phy < RAM_SIZE
    ensures var t := u.Fetch().s;
            t == u.(fetch := t.fetch, immu := u.immu.(cache := t.immu.cache)) && t.fetch.Hits(t.pc)
  {
    hide PageOf, SetOf, Permits, Get32, Bit;
  }

  /** A cycle at instruction k executes instruction k, on both machines. */
  lemma ExecuteOne(s: Machine, prog: seq<Instr>, k: nat) returns (t: Machine)
    requires At(s, prog, k)
    ensures Prepared(s, t) && Decoded(prog[k])
    ensures s.Cycle() == t.Exec(prog[k]) && Abs(s).Cycle() == Abs(t).Exec(prog[k])
  {
    hide *;
    var u := s.(r := s.r.Ticked());
    AtFacts(s, prog, k);
    Tick(s);
    FetchFills(u);
    t := u.Fetch().s;
    MachineCycle(s, u);
    ReferenceCycle(s, u);
    PreparedAfterTick(s, u, t);
  }

  lemma AtFacts(s: Machine, prog: seq<Instr>, k: nat)
    requires At(s, prog, k)
    ensures s.Valid() && Coherent(s) && s.r.ttmr == 0 && s.pc == 4 * k && s.pc % 4 == 0 && s.pc < RAM_SIZE
    ensures k < |prog| && |s.bus.mem| == RAM_SIZE && s.pc + 3 < RAM_SIZE && Decode(Get32(s.bus.mem, s.pc)) == prog[k]
    ensures s.immu.tlb.Valid()
    ensures Translate(s.immu.tlb, s.immu.enabled, InstructionMmu, s.pc, false, false) == Mapped(s.pc)
  {
    hide Coherent, Translate, Decode, Get32, Bit;
  }

  lemma PreparedAfterTick(s: Machine, u: Machine, t: Machine)
    requires Prepared(u, t) && u == s.(r := s.r.(ttcr := u.r.ttcr))
    ensures Prepared(s, t)
  {
    hide Coherent, Machine.Valid, PageCache.Hits;
  }

  // ---------------------------------------------------------------- single instructions

  /** s' is s after an instruction that moves on by one word, up to registers, TLBs and memory. */
  predicate Moved(s: Machine, s': Machine) {
    && s'.Valid() && Coherent(s') && s'.pc == Wrap(s.pc + 4) && !s'.slot && s'.r.ttmr == s.r.ttmr
    && s'.bus.uart == s.bus.uart
  }

  /** One cycle takes both machines from s to s'. */
  predicate Both(s: Machine, s': Machine) {
    s.Valid() && s'.Valid() && Abs(s).Valid() && s.Cycle() == Continue(s') && Abs(s).Cycle() == Continue(Abs(s'))
  }

  lemma Extend(c: Machine, n: nat, s: Machine, s': Machine)
    requires Reaches(c, n, s) && Both(s, s')
    ensures Reaches(c, n + 1, s')
  {
    hide Machine.Cycle, Reference.Cycle, Machine.Valid, Reference.Valid, Abs, RunCycles, ReferenceCycles;
    LastCycle(c, n, s);
  }

  /** If both machines execute instruction k alike, that is what the cycle does. */
  lemma StepBoth(s: Machine, prog: seq<Instr>, k: nat, t: Machine, s': Machine)
    requires At(s, prog, k) && t.Valid() && Decoded(prog[k]) && s'.Valid()
    requires s.Cycle() == t.Exec(prog[k]) && Abs(s).Cycle() == Abs(t).Exec(prog[k])
    requires t.Exec(prog[k]) == Continue(s') && Abs(t).Exec(prog[k]) == Continue(Abs(s'))
    ensures Both(s, s')
  {
    AbsValid(s);
    hide *;
  }

  /** What instruction x, computing a value into d, computes. */
  predicate Computes(x: Instr, r: Regs, d: nat, v: uint32)
    requires r.Valid()
  {
    match x
    case MovHi(e, h) => e == d && v == h * 0x1_0000
    case AluImm(op, e, a, i) => op == Addi && e == d && a < GPRS && i < 0x8000 && v == Wrap(r.gpr[a] + i)
    case _ => false
  }

  lemma ComputeStep(s: Machine, prog: seq<Instr>, k: nat, d: nat, v: uint32) returns (s': Machine)
    requires At(s, prog, k) && !s.slot && d < GPRS && Computes(prog[k], s.r, d, v)
    ensures Both(s, s') && Moved(s, s')
    ensures s'.r == s.r.(gpr := s.r.gpr[d := v], ttcr := s'.r.ttcr) && s'.bus == s.bus && s'.dmmu == s.dmmu
    ensures s'.immu == s.immu.(cache := s'.immu.cache)
  {
    var t := ExecuteOne(s, prog, k);
    s' := t.SetGpr(d, v).IncrementPC();
    ComputeExec(s, t, prog[k], d, v);
    ComputeMoved(s, t, s', d, v);
    hide *;
    StepBoth(s, prog, k, t, s');
  }

  lemma ComputeExec(s: Machine, t: Machine, x: Instr, d: nat, v: uint32)
    requires s.Valid() && Prepared(s, t) && Decoded(x) && d < GPRS && Computes(x, s.r, d, v)
    ensures t.Exec(x) == Continue(t.SetGpr(d, v).IncrementPC())
    ensures Abs(t).Exec(x) == Continue(Abs(t.SetGpr(d, v).IncrementPC()))
  {
    hide Coherent, Bitwise32, Bit, Wrap, PageCache.Hits;
  }

  lemma ComputeMoved(s: Machine, t: Machine, s': Machine, d: nat, v: uint32)
    requires s.Valid() && Prepared(s, t) && !s.slot && d < GPRS && s' == t.SetGpr(d, v).IncrementPC()
    ensures Moved(s, s')
    ensures s'.r == s.r.(gpr := s.r.gpr[d := v], ttcr := s'.r.ttcr) && s'.bus == s.bus && s'.dmmu == s.dmmu
    ensures s'.immu == s.immu.(cache := s'.immu.cache)
  {
    SameCaches(t, s');
    hide Coherent, Wrap, Bit;
  }

  /** A register or'ed with nothing: the address is the constant. */
  lemma PlainAddress(k: uint16)
    ensures SprAddress(0, k) == k
  {
    Pow2Word();
    assert Bitwise32(OrBits, 0, k) == k by { OrZero(k, 32); }
    hide Bitwise32;
  }

  /** The special registers that set up a translation. */
  predicate SetsUp(spr: Spr, s: Machine)
    requires s.Valid()
  {
    match spr
    case SrReg => true
    case DtlbReg(index) => s.dmmu.tlb.Write(index, 0).Some?
    case ItlbReg(index) => s.immu.tlb.Write(index, 0).Some? && !Bit(s.r.sr, IME)
    case _ => false
  }

  /** s' is s after writing v to such a register. */
  predicate Wrote(s: Machine, s': Machine, spr: Spr, v: uint32)
    requires s.Valid()
  {
    match spr
    case SrReg =>
      && s'.r == s.r.(sr := v, ttcr := s'.r.ttcr)
      && s'.dmmu == s.dmmu.(enabled := Bit(v, DME), cache := NoPage)
      && s'.immu == s.immu.(enabled := Bit(v, IME), cache := NoPage)
    case DtlbReg(index) =>
      && s'.r == s.r.(ttcr := s'.r.ttcr) && s.dmmu.tlb.Write(index, v).Some?
      && s'.dmmu == s.dmmu.(tlb := s.dmmu.tlb.Write(index, v).value, cache := NoPage)
      && s'.immu == s.immu.(cache := s'.immu.cache)
    case ItlbReg(index) =>
      && s'.r == s.r.(ttcr := s'.r.ttcr) && s.immu.tlb.Write(index, v).Some?
      && s'.immu == s.immu.(tlb := s.immu.tlb.Write(index, v).value, cache := NoPage)
      && s'.dmmu == s.dmmu
    case _ => true
  }

  lemma WriteStep(s: Machine, prog: seq<Instr>, k: nat, spr: uint16, b: nat) returns (s': Machine)
    requires At(s, prog, k) && !s.slot && prog[k] == Mtspr(0, b, spr) && b < 32 && s.r.gpr[0] == 0
    requires SetsUp(SprAt(spr), s)
    ensures Both(s, s') && Moved(s, s') && s'.bus == s.bus && Wrote(s, s', SprAt(spr), s.r.gpr[b])
  {
    var t := ExecuteOne(s, prog, k);
    s' := WriteExec(s, t, spr, b);
    WriteBoth(t, s', spr, b);
    hide *;
    StepBoth(s, prog, k, t, s');
  }

  lemma WriteExec(s: Machine, t: Machine, spr: uint16, b: nat) returns (s': Machine)
    requires s.Valid() && Prepared(s, t) && !s.slot && b < 32 && s.r.gpr[0] == 0 && s.r.ttmr == 0
    requires SetsUp(SprAt(spr), s)
    ensures t.Exec(Mtspr(0, b, spr)) == Continue(s')
    ensures Moved(s, s') && s'.bus == s.bus && Wrote(s, s', SprAt(spr), s.r.gpr[b])
  {
    hide *;
    PreparedFacts(s, t);
    SetsUpStill(s, t, SprAt(spr));
    s' := WriteShape(t, spr, b);
    WriteMoved(s, t, s', spr, s.r.gpr[b]);
    WriteWrote(s, t, s', spr, s.r.gpr[b]);
  }

  lemma PreparedFacts(s: Machine, t: Machine)
    requires s.Valid() && Prepared(s, t)
    ensures t.Valid() && Coherent(t) && t.slot == s.slot && t.r.gpr == s.r.gpr && t.r.ttmr == s.r.ttmr && t.bus == s.bus
    ensures |t.r.gpr| == 32
  {
    hide Coherent, Bit;
  }

  lemma SetsUpStill(s: Machine, t: Machine, spr: Spr)
    requires s.Valid() && t.Valid() && Prepared(s, t) && SetsUp(spr, s)
    ensures SetsUp(spr, t)
  {
    hide Coherent, Bit;
  }

  /** Such an l.mtspr writes and moves on: with the timer off no interrupt follows. */
  lemma WriteShape(t: Machine, spr: uint16, b: nat) returns (s': Machine)
    requires t.Valid() && b < 32 && t.r.gpr[0] == 0 && t.r.ttmr == 0 && SetsUp(SprAt(spr), t)
    ensures t.WriteSpr(spr, t.r.gpr[b]).Some? && s' == t.WriteSpr(spr, t.r.gpr[b]).value.IncrementPC()
    ensures t.Exec(Mtspr(0, b, spr)) == Continue(s')
  {
    PlainAddress(spr);
    s' := t.WriteSpr(spr, t.r.gpr[b]).value.IncrementPC();
    assert !Bit(0, TIMER_PENDING);
    hide SprAt, SprAddress, Wrap, Bit;
  }

  lemma WriteMoved(s: Machine, t: Machine, s': Machine, spr: uint16, v: uint32)
    requires s.Valid() && Prepared(s, t) && !s.slot && s.r.ttmr == 0 && t.Valid() && SetsUp(SprAt(spr), t)
    requires t.WriteSpr(spr, v).Some? && s' == t.WriteSpr(spr, v).value.IncrementPC()
    ensures Moved(s, s') && s'.bus == s.bus
  {
    WriteSprRefines(t, spr, v);
    WrittenCoherent(t, spr, v);
    SameCaches(t.WriteSpr(spr, v).value, s');
    hide Coherent, SprAt, Wrap, Bit, RemapsRemembered;
  }

  lemma WrittenCoherent(t: Machine, spr: uint16, v: uint32)
    requires t.Valid() && Coherent(t) && SetsUp(SprAt(spr), t) && t.WriteSpr(spr, v).Some?
    requires t.r.ttmr == 0
    ensures t.WriteSpr(spr, v).value.Valid() && Coherent(t.WriteSpr(spr, v).value)
  {
    WriteSprRefines(t, spr, v);
    assert !Bit(0, TIMER_PENDING);
    hide Coherent, SprAt, Bit, EntryKept, Machine.WriteSpr;
  }

  lemma WriteWrote(s: Machine, t: Machine, s': Machine, spr: uint16, v: uint32)
    requires s.Valid() && Prepared(s, t) && t.Valid() && SetsUp(SprAt(spr), t)
    requires t.WriteSpr(spr, v).Some? && s' == t.WriteSpr(spr, v).value.IncrementPC()
    ensures Wrote(s, s', SprAt(spr), v)
  {
    hide Coherent, SprAt, Wrap, Bit;
  }

  lemma WriteBoth(t: Machine, s': Machine, spr: uint16, b: nat)
    requires t.Valid() && Coherent(t) && b < GPRS && t.r.gpr[0] == 0 && t.Exec(Mtspr(0, b, spr)) == Continue(s')
    ensures Abs(t).Valid() && Abs(t).Exec(Mtspr(0, b, spr)) == Continue(Abs(s'))
  {
    AbsValid(t);
    WriteSprInstrExact(t, SprAddress(0, spr), t.r.gpr[b]);
    hide Coherent, SprAddress, Machine.WriteSprInstr, Reference.WriteSprInstr, Bit, RemapsRemembered, Abs;
    AbsRegs(t);
  }

  lemma AbsRegs(t: Machine)
    ensures Abs(t).r == t.r
  {
  }

  /** Storing a zero word with the data MMU off or the word's page mapped to itself. */
  lemma StoreStep(s: Machine, prog: seq<Instr>, k: nat, a: uint16) returns (s': Machine)
    requires At(s, prog, k) && !s.slot && prog[k] == Store(4, 0, 0, a) && s.r.gpr[0] == 0
    requires a % 4 == 0 && 0x1000 <= a < 0x8000
    requires Translate(s.dmmu.tlb, s.dmmu.enabled, DataMmu, a, s.r.Supervisor(), true) == Mapped(a)
    ensures Both(s, s') && Moved(s, s') && s'.r == s.r.(ttcr := s'.r.ttcr)
    ensures |s.bus.mem| == RAM_SIZE && s'.bus.mem == Put32(s.bus.mem, a, 0) && InMemory(s'.bus.mem, prog)
    ensures s'.immu == s.immu.(cache := s'.immu.cache)
    ensures s'.dmmu == s.dmmu.AfterStore(4, a, s.r.Supervisor())
  {
    var t := ExecuteOne(s, prog, k);
    s' := StoreExec(s, t, a);
    PutKeeps(s.bus.mem, prog, a);
    hide *;
    StepBoth(s, prog, k, t, s');
  }

  lemma StoreExec(s: Machine, t: Machine, a: uint16) returns (s': Machine)
    requires s.Valid() && Prepared(s, t) && !s.slot && s.r.gpr[0] == 0 && a % 4 == 0 && a < 0x8000
    requires Translate(s.dmmu.tlb, s.dmmu.enabled, DataMmu, a, s.r.Supervisor(), true) == Mapped(a)
    ensures Abs(t).Valid() && t.Exec(Store(4, 0, 0, a)) == Continue(s')
    ensures Abs(t).Exec(Store(4, 0, 0, a)) == Continue(Abs(s'))
    ensures Moved(s, s') && s'.r == s.r.(ttcr := s'.r.ttcr)
    ensures |s.bus.mem| == RAM_SIZE && s'.bus.mem == Put32(s.bus.mem, a, 0)
    ensures s'.immu == s.immu.(cache := s'.immu.cache)
    ensures s'.dmmu == s.dmmu.AfterStore(4, a, s.r.Supervisor())
  {
    hide *;
    PreparedFacts(s, t);
    PreparedMmu(s, t);
    AbsValid(t);
    StoreReply(t.dmmu, t.bus, a, t.r.Supervisor());
    s' := StoreShape(t, a);
    StoreMoved(s, t, s', a);
  }

  lemma PreparedMmu(s: Machine, t: Machine)
    requires s.Valid() && Prepared(s, t)
    ensures t.dmmu == s.dmmu && t.dmmu.Valid() && t.bus.Valid() && t.dmmu.kind == DataMmu
    ensures t.r.Supervisor() == s.r.Supervisor() && |t.bus.mem| == RAM_SIZE
  {
    hide Coherent, Bit;
  }

  lemma StoreShape(t: Machine, a: uint16) returns (s': Machine)
    requires t.Valid() && Coherent(t) && Abs(t).Valid() && t.r.gpr[0] == 0 && a % 4 == 0 && a < 0x8000
    requires |t.bus.mem| == RAM_SIZE
    requires t.dmmu.Store(t.bus, 4, a, 0, t.r.Supervisor()) == Value(0, t.bus.(mem := Put32(t.bus.mem, a, 0)))
    ensures s' == t.(dmmu := t.dmmu.AfterStore(4, a, t.r.Supervisor()),
                     bus := t.bus.(mem := Put32(t.bus.mem, a, 0))).IncrementPC()
    ensures t.Exec(Store(4, 0, 0, a)) == Continue(s') && Abs(t).Exec(Store(4, 0, 0, a)) == Continue(Abs(s'))
    ensures s'.Valid() && Coherent(s')
  {
    hide *;
    StoreBounds(t, a);
    StoreRefines(t, 4, a, 0);
    s' := t.(dmmu := t.dmmu.AfterStore(4, a, t.r.Supervisor()),
             bus := t.bus.(mem := Put32(t.bus.mem, a, 0))).IncrementPC();
    ExecIsStore(t, a);
    StoreIs(t, a);
    AgreeContinue(t.StoreInstr(4, a, 0), s');
  }

  lemma StoreBounds(t: Machine, a: uint16)
    requires t.Valid() && a < 0x8000
    ensures t.dmmu.Valid() && a + 3 < |t.bus.mem|
  {
    hide Bit;
  }

  lemma ExecIsStore(t: Machine, a: uint16)
    requires t.Valid() && Abs(t).Valid() && t.r.gpr[0] == 0 && a < 0x8000
    ensures t.Exec(Store(4, 0, 0, a)) == t.StoreInstr(4, a, 0)
            && Abs(t).Exec(Store(4, 0, 0, a)) == Abs(t).StoreInstr(4, a, 0)
  {
    hide Machine.StoreInstr, Reference.StoreInstr, Bit;
  }

  lemma StoreIs(t: Machine, a: uint16)
    requires t.Valid() && a < 0x8000 && |t.bus.mem| == RAM_SIZE
    requires t.dmmu.Store(t.bus, 4, a, 0, t.r.Supervisor()) == Value(0, t.bus.(mem := Put32(t.bus.mem, a, 0)))
    ensures t.StoreInstr(4, a, 0) == Continue(t.(dmmu := t.dmmu.AfterStore(4, a, t.r.Supervisor()),
                                                 bus := t.bus.(mem := Put32(t.bus.mem, a, 0))).IncrementPC())
  {
    hide Machine.Throw, MmuState.Store, MmuState.AfterStore, Put32, Wrap, Bit;
  }

  lemma AgreeContinue(step: Step<Machine>, s: Machine)
    requires step == Continue(s)
    ensures AbsStep(step) == Continue(Abs(s)) && (CoherentStep(step) ==> s.Valid() && Coherent(s))
  {
  }

  lemma StoreMoved(s: Machine, t: Machine, s': Machine, a: uint16)
    requires s.Valid() && Prepared(s, t) && !s.slot && a % 4 == 0 && a < 0x8000 && |t.bus.mem| == RAM_SIZE
    requires t.dmmu.Valid()
    requires s' == t.(dmmu := t.dmmu.AfterStore(4, a, t.r.Supervisor()),
                      bus := t.bus.(mem := Put32(t.bus.mem, a, 0))).IncrementPC()
    requires s'.Valid() && Coherent(s')
    ensures Moved(s, s') && s'.r == s.r.(ttcr := s'.r.ttcr)
    ensures |s.bus.mem| == RAM_SIZE && s'.bus.mem == Put32(s.bus.mem, a, 0)
    ensures s'.immu == s.immu.(cache := s'.immu.cache) && s'.dmmu == s.dmmu.AfterStore(4, a, s.r.Supervisor())
  {
    hide Coherent, MmuState.AfterStore, Put32, Wrap, Bit;
  }

  lemma StoreReply(u: MmuState, bus: BusState, a: uint32, sm: bool)
    requires u.Valid() && bus.Valid() && u.kind == DataMmu && a % 4 == 0 && a < 0x8000
    requires Translate(u.tlb, u.enabled, DataMmu, a, sm, true) == Mapped(a)
    ensures u.Store(bus, 4, a, 0, sm) == Value(0, bus.(mem := Put32(bus.mem, a, 0)))
  {
    hide Translate, Put32;
  }

  lemma PutKeeps(mem: seq<uint8>, prog: seq<Instr>, a: uint32)
    requires InMemory(mem, prog) && 0x1000 <= a < 0x8000
    ensures InMemory(Put32(mem, a, 0), prog)
  {
    hide Decode;
    forall k | 0 <= k < |prog|
      ensures Decode(Get32(Put32(mem, a, 0), 4 * k)) == prog[k]
    {
      assert Get32(Put32(mem, a, 0), 4 * k) == Get32(mem, 4 * k);
    }
  }

  // ---------------------------------------------------------------- setting up a translation

  /** Seven instructions that enter one page mapping, virtual page 0, into the data (or the
      instruction) TLB and then load SR. */
  function Setup(data: bool, hi: uint16, lo: uint16, sr: uint16): (p: seq<Instr>)
    ensures |p| == 7
  {
    var group := if data then 0x800 else 0x1000;
    [AluImm(Addi, 1, 0, 1), MovHi(2, hi), AluImm(Addi, 2, 2, lo),
     Mtspr(0, 1, group + 512), Mtspr(0, 2, group + 640),
     AluImm(Addi, 3, 0, sr), Mtspr(0, 3, 17)]
  }

  /** From c, both machines are at instruction n of prog, outside slots, fetches not translated. */
  predicate Off(c: Machine, s: Machine, prog: seq<Instr>, n: nat) {
    Reaches(c, n, s) && At(s, prog, n) && !s.slot && s.r.gpr[0] == 0 && !s.immu.enabled
  }

  lemma OffNext(c: Machine, s: Machine, s': Machine, prog: seq<Instr>, n: nat)
    requires Off(c, s, prog, n) && Both(s, s') && Moved(s, s') && s'.bus == s.bus
    requires s'.r.gpr[0] == 0 && !s'.immu.enabled && n + 1 < |prog|
    ensures Off(c, s', prog, n + 1)
  {
    hide RunCycles, ReferenceCycles, Machine.Cycle, Reference.Cycle, Coherent, Get32, Decode;
    Extend(c, n, s, s');
  }

  /** s' is s but for the registers, the timer's count and what is cached for fetches. */
  predicate OnlyRegisters(s: Machine, s': Machine) {
    && s'.r == s.r.(gpr := s'.r.gpr, ttcr := s'.r.ttcr) && s'.bus == s.bus && s'.dmmu == s.dmmu
    && s'.immu == s.immu.(cache := s'.immu.cache)
  }

  lemma OffAddi(c: Machine, s: Machine, prog: seq<Instr>, n: nat, d: nat, a: nat, i: uint16) returns (s': Machine)
    requires Off(c, s, prog, n) && n + 1 < |prog| && prog[n] == AluImm(Addi, d, a, i)
    requires 0 < d < 32 && a < 32 && i < 0x8000
    ensures Off(c, s', prog, n + 1) && s'.r.gpr == s.r.gpr[d := Wrap(s.r.gpr[a] + i)] && OnlyRegisters(s, s')
  {
    hide RunCycles, ReferenceCycles, Coherent, InMemory, Both, Wrap;
    s' := ComputeStep(s, prog, n, d, Wrap(s.r.gpr[a] + i));
    OffNext(c, s, s', prog, n);
  }

  lemma OffMovHi(c: Machine, s: Machine, prog: seq<Instr>, n: nat, d: nat, h: uint16) returns (s': Machine)
    requires Off(c, s, prog, n) && n + 1 < |prog| && prog[n] == MovHi(d, h) && 0 < d < 32
    ensures Off(c, s', prog, n + 1) && s'.r.gpr == s.r.gpr[d := h * 0x1_0000] && OnlyRegisters(s, s')
  {
    hide RunCycles, ReferenceCycles, Coherent, InMemory, Both, Wrap;
    s' := ComputeStep(s, prog, n, d, h * 0x1_0000);
    OffNext(c, s, s', prog, n);
  }

  /** The first three instructions: 1 into r1 and the translate register's value into r2. */
  lemma SetRegisters(c: Machine, prog: seq<Instr>, data: bool, hi: uint16, lo: uint16, sr: uint16) returns (s: Machine)
    requires Off(c, c, prog, 0) && Setup(data, hi, lo, sr) <= prog && lo < 0x8000 && |c.r.gpr| == 32
    ensures Off(c, s, prog, 3) && OnlyRegisters(c, s) && s.r.gpr == c.r.gpr[1 := 1][2 := hi * 0x1_0000 + lo]
  {
    hide *;
    SetupCodes(prog, data, hi, lo, sr);
    ZeroRegister(c, c, prog, 0);
    var s1 := OffAddi(c, c, prog, 0, 1, 0, 1);
    var s2 := OffMovHi(c, s1, prog, 1, 2, hi);
    s := OffAddi(c, s2, prog, 2, 2, 2, lo);
    OnlyTwice(c, s1, s2);
    OnlyTwice(c, s2, s);
    NoWrap(hi, lo);
    assert s.r.gpr == c.r.gpr[1 := 1][2 := hi * 0x1_0000 + lo];
  }

  lemma OnlyTwice(s: Machine, s': Machine, s'': Machine)
    requires OnlyRegisters(s, s') && OnlyRegisters(s', s'')
    ensures OnlyRegisters(s, s'')
  {
  }

  lemma NoWrap(hi: uint16, lo: uint16)
    ensures Wrap(0 + 1) == 1 && Wrap(hi * 0x1_0000 + lo) == hi * 0x1_0000 + lo
  {
  }

  lemma ZeroRegister(c: Machine, s: Machine, prog: seq<Instr>, n: nat)
    requires Off(c, s, prog, n)
    ensures |s.r.gpr| == 32 && s.r.gpr[0] == 0
  {
    hide RunCycles, ReferenceCycles, Coherent, InMemory;
  }

  lemma SetupCodes(prog: seq<Instr>, data: bool, hi: uint16, lo: uint16, sr: uint16)
    requires Setup(data, hi, lo, sr) <= prog
    ensures |prog| >= 7
    ensures prog[0] == AluImm(Addi, 1, 0, 1) && prog[1] == MovHi(2, hi) && prog[2] == AluImm(Addi, 2, 2, lo)
    ensures var group := if data then 0x800 else 0x1000;
            prog[3] == Mtspr(0, 1, group + 512) && prog[4] == Mtspr(0, 2, group + 640)
    ensures prog[5] == AluImm(Addi, 3, 0, sr) && prog[6] == Mtspr(0, 3, 17)
  {
    var p := Setup(data, hi, lo, sr);
    assert forall k :: 0 <= k < 7 ==> prog[k] == p[k];
  }

  /** The TLB that a setup fills. */
  function TlbOf(s: Machine, data: bool): Tlb { if data then s.dmmu.tlb else s.immu.tlb }

  /** s' is s but for the TLBs, the timer's count and the caches; the TLB in question is t, the
      other one as it was. */
  predicate OnlyTlb(s: Machine, s': Machine, data: bool, t: Tlb) {
    && s'.r == s.r.(ttcr := s'.r.ttcr) && s'.bus == s.bus
    && s'.dmmu == s.dmmu.(tlb := s'.dmmu.tlb, cache := s'.dmmu.cache)
    && s'.immu == s.immu.(tlb := s'.immu.tlb, cache := s'.immu.cache)
    && TlbOf(s', data) == t && TlbOf(s', !data) == TlbOf(s, !data)
  }

  lemma OffWrite(c: Machine, s: Machine, prog: seq<Instr>, n: nat, data: bool, index: nat, b: nat) returns (s': Machine)
    requires Off(c, s, prog, n) && n + 1 < |prog| && b < 32 && index < 0x800
    requires prog[n] == Mtspr(0, b, (if data then 0x800 else 0x1000) + index)
    requires TlbOf(s, data).Valid() && TlbOf(s, data).Write(index, 0).Some? && |s.r.gpr| == 32
    ensures Off(c, s', prog, n + 1) && TlbOf(s, data).Write(index, s.r.gpr[b]).Some?
    ensures OnlyTlb(s, s', data, TlbOf(s, data).Write(index, s.r.gpr[b]).value)
  {
    hide *;
    var spr := (if data then 0x800 else 0x1000) + index;
    OffAt(c, s, prog, n);
    TlbAddress(s, data, index);
    s' := WriteStep(s, prog, n, spr, b);
    WroteTlb(s, s', data, index, s.r.gpr[b]);
    OffAfter(c, s, s', prog, n);
  }

  lemma OffAt(c: Machine, s: Machine, prog: seq<Instr>, n: nat)
    requires Off(c, s, prog, n)
    ensures At(s, prog, n) && Reaches(c, n, s) && !s.slot && s.Valid() && |s.r.gpr| == 32 && s.r.gpr[0] == 0
    ensures !Bit(s.r.sr, IME) && s.immu.Valid() && s.dmmu.Valid()
  {
    hide RunCycles, ReferenceCycles, Coherent, InMemory, Bit, Translate;
  }

  lemma OffAfter(c: Machine, s: Machine, s': Machine, prog: seq<Instr>, n: nat)
    requires Off(c, s, prog, n) && n + 1 < |prog| && Both(s, s') && Moved(s, s') && s'.bus == s.bus
    requires s'.r.gpr == s.r.gpr && s'.immu.enabled == s.immu.enabled
    ensures Off(c, s', prog, n + 1)
  {
    hide RunCycles, ReferenceCycles, Machine.Cycle, Reference.Cycle, Coherent, InMemory;
    OffNext(c, s, s', prog, n);
  }

  lemma WroteTlb(s: Machine, s': Machine, data: bool, index: nat, v: uint32)
    requires s.immu.Valid() && s.dmmu.Valid() && s.Valid() && s'.bus == s.bus
    requires TlbOf(s, data).Write(index, 0).Some?
    requires Wrote(s, s', if data then DtlbReg(index) else ItlbReg(index), v)
    ensures TlbOf(s, data).Write(index, v).Some?
    ensures OnlyTlb(s, s', data, TlbOf(s, data).Write(index, v).value)
    ensures s'.r.gpr == s.r.gpr && s'.immu.enabled == s.immu.enabled
  {
    hide Bit;
  }

  lemma TlbAddress(s: Machine, data: bool, index: nat)
    requires index < 0x800 && s.Valid() && !Bit(s.r.sr, IME) && TlbOf(s, data).Write(index, 0).Some?
    ensures var spr := SprAt((if data then 0x800 else 0x1000) + index);
            spr == (if data then DtlbReg(index) else ItlbReg(index)) && SetsUp(spr, s)
  {
  }

  /** The next two: the match and the translate register of set 0. */
  lemma SetTlb(c: Machine, s: Machine, prog: seq<Instr>, data: bool, hi: uint16, lo: uint16, sr: uint16)
    returns (s': Machine)
    requires Off(c, s, prog, 3) && Setup(data, hi, lo, sr) <= prog && TlbOf(s, data).Valid() && |s.r.gpr| == 32
    ensures Off(c, s', prog, 5)
    ensures var t := TlbOf(s, data);
            OnlyTlb(s, s', data, Tlb(t.control, t.matches[0 := s.r.gpr[1]], t.translates[0 := s.r.gpr[2]]))
  {
    hide *;
    SetupCodes(prog, data, hi, lo, sr);
    TwoWrites(TlbOf(s, data), s.r.gpr[1], s.r.gpr[2]);
    var s1 := OffWrite(c, s, prog, 3, data, 512, 1);
    SameRegisters(s, s1, data, TlbOf(s, data).Write(512, s.r.gpr[1]).value);
    s' := OffWrite(c, s1, prog, 4, data, 640, 2);
    var t1 := TlbOf(s, data).Write(512, s.r.gpr[1]).value;
    OnlyTlbTwice(s, s1, s', data, t1, t1.Write(640, s.r.gpr[2]).value);
  }

  lemma TwoWrites(t: Tlb, v: uint32, w: uint32)
    requires t.Valid()
    ensures t.Write(512, 0).Some? && t.Write(512, v).Some?
    ensures var u := t.Write(512, v).value;
            u.Write(640, 0).Some? && u.Write(640, w) == Some(Tlb(t.control, t.matches[0 := v], t.translates[0 := w]))
  {
  }

  lemma SameRegisters(s: Machine, s': Machine, data: bool, t: Tlb)
    requires OnlyTlb(s, s', data, t)
    ensures s'.r.gpr == s.r.gpr && TlbOf(s', data) == t
  {
  }

  lemma OnlyTlbTwice(s: Machine, s1: Machine, s': Machine, data: bool, t: Tlb, u: Tlb)
    requires OnlyTlb(s, s1, data, t) && OnlyTlb(s1, s', data, u)
    ensures OnlyTlb(s, s', data, u)
  {
  }

  lemma SupervisionAddress(s: Machine)
    requires s.Valid()
    ensures SprAt(17) == SrReg && SetsUp(SrReg, s)
  {
  }

  lemma WroteSupervision(c: Machine, s: Machine, s1: Machine, s': Machine, prog: seq<Instr>, sr: uint16)
    requires Off(c, s1, prog, 6) && OnlyRegisters(s, s1) && |s.r.gpr| == 32 && s.r.gpr[0] == 0
    requires s1.r.gpr == s.r.gpr[3 := Wrap(s.r.gpr[0] + sr)]
    requires s1.Valid() && Moved(s1, s') && s'.bus == s1.bus && Wrote(s1, s', SrReg, s1.r.gpr[3])
    ensures s'.Valid() && Coherent(s') && s'.pc == 28 && !s'.slot && s'.bus == s.bus
    ensures s'.r == s.r.(gpr := s.r.gpr[3 := sr], sr := sr, ttcr := s'.r.ttcr)
    ensures s'.dmmu == s.dmmu.(enabled := Bit(sr, DME), cache := NoPage)
    ensures s'.immu == s.immu.(enabled := Bit(sr, IME), cache := NoPage)
  {
    hide RunCycles, ReferenceCycles, Coherent, InMemory, Bit;
  }

  /** The last two: the value of SR into r3, then into SR. */
  lemma SetSupervision(c: Machine, s: Machine, prog: seq<Instr>, data: bool, hi: uint16, lo: uint16, sr: uint16)
    returns (s': Machine)
    requires Off(c, s, prog, 5) && Setup(data, hi, lo, sr) <= prog && sr < 0x8000 && |s.r.gpr| == 32
    ensures Reaches(c, 7, s') && s'.Valid() && Coherent(s') && s'.pc == 28 && !s'.slot && s'.bus == s.bus
    ensures s'.r == s.r.(gpr := s.r.gpr[3 := sr], sr := sr, ttcr := s'.r.ttcr)
    ensures s'.dmmu == s.dmmu.(enabled := Bit(sr, DME), cache := NoPage)
    ensures s'.immu == s.immu.(enabled := Bit(sr, IME), cache := NoPage)
  {
    hide *;
    SetupCodes(prog, data, hi, lo, sr);
    OffAt(c, s, prog, 5);
    var s1 := OffAddi(c, s, prog, 5, 3, 0, sr);
    OffAt(c, s1, prog, 6);
    SupervisionAddress(s1);
    s' := WriteStep(s1, prog, 6, 17, 3);
    Extend(c, 6, s1, s');
    WroteSupervision(c, s, s1, s', prog, sr);
  }

  /** A machine with all registers zero, both MMUs off and their TLBs empty, at the start of a
      program. */
  predicate Fresh(c: Machine, prog: seq<Instr>) {
    && At(c, prog, 0) && !c.slot && c.r.gpr == seq(32, i => 0) && c.r.sr == RESET_SR && !c.immu.enabled
    && c.dmmu.tlb.matches == seq(SETS, i => 0) && c.immu.tlb.matches == seq(SETS, i => 0)
    && c.dmmu.kind == DataMmu && c.immu.kind == InstructionMmu
  }

  /** A machine just after a setup, with the translation on. */
  predicate Translating(c: Machine, s: Machine, data: bool, tr: uint32, sr: uint16) {
    && Reaches(c, 7, s) && s.Valid() && Coherent(s) && s.pc == 28 && !s.slot && s.bus == c.bus
    && s.r.gpr == c.r.gpr[1 := 1][2 := tr][3 := sr] && s.r.sr == sr && s.r.ttmr == 0
    && s.dmmu.enabled == Bit(sr, DME) && s.immu.enabled == Bit(sr, IME)
    && s.dmmu.cache == NoPage && s.immu.cache == NoPage
    && TlbOf(s, data).Valid() && TlbOf(s, data).matches[0] == 1 && TlbOf(s, data).translates[0] == tr
  }

  lemma RunSetup(c: Machine, prog: seq<Instr>, data: bool, hi: uint16, lo: uint16, sr: uint16) returns (s: Machine)
    requires Fresh(c, prog) && Setup(data, hi, lo, sr) <= prog && lo < 0x8000 && sr < 0x8000
    ensures Translating(c, s, data, hi * 0x1_0000 + lo, sr)
  {
    hide *;
    FreshOff(c, prog);
    var s3 := SetRegisters(c, prog, data, hi, lo, sr);
    RegistersTlb(c, s3, data);
    var s5 := SetTlb(c, s3, prog, data, hi, lo, sr);
    OffAt(c, s5, prog, 5);
    s := SetSupervision(c, s5, prog, data, hi, lo, sr);
    SetupAdds(c, s3, s5, s, data, hi * 0x1_0000 + lo, sr);
  }

  lemma FreshOff(c: Machine, prog: seq<Instr>)
    requires Fresh(c, prog)
    ensures Off(c, c, prog, 0) && |c.r.gpr| == 32 && c.Valid() && c.r.ttmr == 0
  {
    hide Coherent, InMemory, Machine.Cycle, Reference.Cycle;
    AbsValid(c);
  }

  lemma RegistersTlb(c: Machine, s: Machine, data: bool)
    requires c.Valid() && OnlyRegisters(c, s)
    ensures TlbOf(s, data) == TlbOf(c, data) && TlbOf(s, data).Valid()
  {
  }

  lemma SetupAdds(c: Machine, s3: Machine, s5: Machine, s: Machine, data: bool, tr: uint32, sr: uint16)
    requires c.Valid() && c.r.ttmr == 0 && OnlyRegisters(c, s3) && s3.r.gpr == c.r.gpr[1 := 1][2 := tr]
    requires TlbOf(s3, data).Valid()
    requires var t := TlbOf(s3, data);
             OnlyTlb(s3, s5, data, Tlb(t.control, t.matches[0 := s3.r.gpr[1]], t.translates[0 := s3.r.gpr[2]]))
    requires Reaches(c, 7, s) && s.Valid() && Coherent(s) && s.pc == 28 && !s.slot && s.bus == s5.bus
    requires |s5.r.gpr| == 32 && s.r == s5.r.(gpr := s5.r.gpr[3 := sr], sr := sr, ttcr := s.r.ttcr)
    requires s.dmmu == s5.dmmu.(enabled := Bit(sr, DME), cache := NoPage)
    requires s.immu == s5.immu.(enabled := Bit(sr, IME), cache := NoPage)
    ensures Translating(c, s, data, tr, sr)
  {
    hide Coherent, Bit, Reaches;
  }

  // ---------------------------------------------------------------- from any system

  /** Load a program at address 0 and run it for n cycles. */
  function LoadAndRun(prog: seq<Instr>, n: nat): seq<HostAction>
    requires Program(prog)
  {
    [LoadImage(Image(prog), 0), RunFor(n)]
  }

  /** The state a run leaves; a stuck one leaves none. */
  function Left<S>(s: Step<S>): Step<S> {
    match s
    case Continue(x) => Continue(x)
    case Stopped(x, _) => Continue(x)
    case Stuck => Stuck
  }

  /** Whatever the system was, loading a program and running it is running it from a fresh machine. */
  lemma Started(m: Machine, prog: seq<Instr>, n: nat) returns (c: Machine)
    requires m.Valid() && Abs(m).Valid() && Program(prog) && 0 < |prog| <= 64
    ensures Fresh(c, prog) && c.Valid() && Abs(c).Valid()
    ensures Session(m, LoadAndRun(prog, n)) == Left(RunCycles(c, n))
    ensures ReferenceSession(Abs(m), LoadAndRun(prog, n)) == Left(ReferenceCycles(Abs(c), n))
  {
    hide *;
    WholeImage(prog);
    var s := Loaded(m, Image(prog));
    c := s.CheckInterrupts();
    LoadedFresh(m, s, prog);
    SessionOf(m, s, prog, n);
  }

  /** The machine just after loading whole words. */
  lemma Loaded(m: Machine, image: seq<uint8>) returns (s: Machine)
    requires m.Valid() && !EndsProcess(image)
    ensures Act(m, LoadImage(image, 0)) == Continue(s)
  {
    s := Act(m, LoadImage(image, 0)).s;
    hide Machine.Valid, Machine.Reset, Imaged, EndsProcess;
  }

  lemma WholeImage(prog: seq<Instr>)
    requires Program(prog) && |prog| <= 64
    ensures !EndsProcess(Image(prog)) && |Image(prog)| <= RAM_SIZE
  {
    hide Image, Program;
  }

  lemma LoadedFresh(m: Machine, s: Machine, prog: seq<Instr>)
    requires m.Valid() && Program(prog) && 0 < |prog| <= 64 && Act(m, LoadImage(Image(prog), 0)) == Continue(s)
    ensures Fresh(s.CheckInterrupts(), prog)
  {
    LoadedState(m, Image(prog), 0, s);
    ImageInMemory(m.bus.mem, prog);
    CheckRefines(s);
    LoadedRegisters(m, s, Image(prog));
    SampleOnly(s);
    hide Coherent, Machine.CheckInterrupts, Act, Image, InMemory, Overlay, Bit;
  }

  lemma LoadedRegisters(m: Machine, s: Machine, image: seq<uint8>)
    requires m.Valid() && |image| <= RAM_SIZE && Act(m, LoadImage(image, 0)) == Continue(s)
    ensures s.r.gpr == seq(32, i => 0) && s.r.sr == RESET_SR && s.r.ttmr == 0 && !s.immu.enabled
    ensures s.dmmu.tlb.matches == seq(SETS, i => 0) && s.immu.tlb.matches == seq(SETS, i => 0)
    ensures s.dmmu.kind == DataMmu && s.immu.kind == InstructionMmu
  {
    assert !Bit(RESET_SR, IME);
    hide Bit, Overlay;
  }

  lemma SampleOnly(s: Machine)
    requires s.r.sr == RESET_SR
    ensures var c := s.CheckInterrupts();
            c == s.(r := s.r.(picsr := c.r.picsr, pending := c.r.pending))
  {
    assert !Bit(RESET_SR, IEE);
    hide Bit;
  }

  lemma ImageInMemory(mem: seq<uint8>, prog: seq<Instr>)
    requires Program(prog) && |prog| <= 64 && |mem| == RAM_SIZE
    ensures InMemory(Overlay(mem, 0, Image(prog)), prog)
  {
    hide Decode, Overlay, Image, Program, Get32;
    forall k | 0 <= k < |prog|
      ensures Decode(Get32(Overlay(mem, 0, Image(prog)), 4 * k)) == prog[k]
    {
      LoadedProgramDecodes(mem, prog, k);
    }
  }

  lemma SessionOf(m: Machine, s: Machine, prog: seq<Instr>, n: nat)
    requires m.Valid() && Abs(m).Valid() && Program(prog) && |prog| <= 64
    requires Act(m, LoadImage(Image(prog), 0)) == Continue(s)
    ensures s.CheckInterrupts().Valid() && Abs(s.CheckInterrupts()).Valid()
    ensures Session(m, LoadAndRun(prog, n)) == Left(RunCycles(s.CheckInterrupts(), n))
    ensures ReferenceSession(Abs(m), LoadAndRun(prog, n)) == Left(ReferenceCycles(Abs(s.CheckInterrupts()), n))
  {
    var image := Image(prog);
    LoadedState(m, image, 0, s);
    LoadRefers(m, image, s);
    CheckRefines(s);
    AbsValid(s.CheckInterrupts());
    hide Coherent, Machine.CheckInterrupts, Reference.CheckInterrupts, Act, ReferenceAct, RunCycles, ReferenceCycles,
         Image, Machine.Valid, Reference.Valid, Abs;
    RunSession(s, n);
    assert LoadAndRun(prog, n)[1..] == [RunFor(n)];
  }

  lemma LoadRefers(m: Machine, image: seq<uint8>, s: Machine)
    requires m.Valid() && Abs(m).Valid() && Act(m, LoadImage(image, 0)) == Continue(s)
    ensures ReferenceAct(Abs(m), LoadImage(image, 0)) == Continue(Abs(s))
  {
    ResetValid(m);
    ResetSlot(m);
    hide Machine.Reset, Reference.Reset, Bit;
  }

  /** A session of one run. */
  lemma RunSession(s: Machine, n: nat)
    requires s.Valid() && Coherent(s) && Abs(s).Valid()
    ensures s.CheckInterrupts().Valid() && Abs(s.CheckInterrupts()).Valid()
    ensures Session(s, [RunFor(n)]) == Left(RunCycles(s.CheckInterrupts(), n))
    ensures ReferenceSession(Abs(s), [RunFor(n)]) == Left(ReferenceCycles(Abs(s.CheckInterrupts()), n))
  {
    CheckRefines(s);
    AbsValid(s.CheckInterrupts());
    hide Coherent, Machine.CheckInterrupts, Reference.CheckInterrupts, RunCycles, ReferenceCycles, Machine.Valid,
         Reference.Valid;
  }
}
