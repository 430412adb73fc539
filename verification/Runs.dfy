/** Whole runs: the refinement of single instructions lifted to fetches, cycles, runs and
    sessions of host actions, from reset on. */
module Runs {
  import opened Words
  import opened Exceptions
  import opened Memory
  import opened Bus
  import opened Translation
  import opened Isa
  import opened Registers
  import opened Machine
  import opened Reference
  import opened Refinement

  // ---------------------------------------------------------------- the fetch

  /** A translation of a page base is a translation of every address of the page. */
  lemma TranslatePage(tlb: Tlb, enabled: bool, kind: Kind, a: uint32, sm: bool, write: bool)
    requires tlb.Valid()
    ensures var t := Translate(tlb, enabled, kind, a, sm, write);
            var p := Translate(tlb, enabled, kind, PageOf(a), sm, write);
            && t.Mapped? == p.Mapped?
            && (t.Mapped? ==> p.phy == PageOf(t.phy) && t.phy == p.phy + a % PAGE_SIZE && t.phy % 4 == a % 4)
  {
    PageOfPage(a);
    SamePage(a, PageOf(a));
    FrameJoin(tlb.Entry(a), a);
    FrameJoin(tlb.Entry(a), PageOf(a));
    PageOffset(a);
    hide PageOf, SetOf, Permits, Bit;
  }

  lemma PageOffset(a: uint32)
    ensures PageOf(a) + a % PAGE_SIZE == a && PageOf(a) % PAGE_SIZE == 0
  {
    PageOfPage(a);
  }

  /** Fetching a mapped RAM word, by frame and offset or by physical address. */
  lemma FetchWord(bus: BusState, frame: uint32, pc: uint32, phy: uint32)
    requires bus.Valid() && frame % PAGE_SIZE == 0 && frame < RAM_SIZE
    requires phy == frame + pc % PAGE_SIZE && phy % 4 == pc % 4
    ensures phy < RAM_SIZE
    ensures pc % 4 != 0 ==> BusLoad(bus, 4, phy) == Undefined
    ensures pc % 4 == 0 ==> phy + 3 < RAM_SIZE && BusLoad(bus, 4, phy) == Value(Get32(bus.mem, phy), bus)
  {
    FramePage(frame, pc);
  }

  lemma FetchHitRefines(m: Machine)
    requires m.Valid() && Coherent(m) && m.fetch.Hits(m.pc)
    ensures AbsFetched(m.Fetch()) == Abs(m).Fetch()
    ensures m.Fetch().Word? ==> m.Fetch().s == m
  {
    TranslatePage(m.immu.tlb, m.immu.enabled, InstructionMmu, m.pc, false, false);
    TranslateMode(m.immu.tlb, m.immu.enabled, m.pc, m.r.Supervisor());
    var phy := m.fetch.frame + m.pc % PAGE_SIZE;
    hide PageOf, Translate, BusLoad, Get32, CacheSound, Bit;
    FetchWord(m.bus, m.fetch.frame, m.pc, phy);
  }

  /** The instruction MMU permits alike in both modes. */
  lemma TranslateMode(tlb: Tlb, enabled: bool, a: uint32, sm: bool)
    requires tlb.Valid()
    ensures Translate(tlb, enabled, InstructionMmu, a, sm, false)
            == Translate(tlb, enabled, InstructionMmu, a, false, false)
  {
  }

  lemma FetchFillRefines(m: Machine)
    requires m.Valid() && Coherent(m) && !m.fetch.Hits(m.pc)
    requires m.immu.Map(m.pc, m.r.Supervisor(), false).Mapped?
             && m.immu.Map(m.pc, m.r.Supervisor(), false).phy < RAM_SIZE
    ensures AbsFetched(m.Fetch()) == Abs(m).Fetch()
    ensures !m.Fetch().NoFetch? ==> m.Fetch().s.Valid() && Coherent(m.Fetch().s)
  {
    var sm := m.r.Supervisor();
    var phy := m.immu.Map(m.pc, sm, false).phy;
    MapKeepsSound(m.immu, m.pc, sm, false);
    TranslatePage(m.immu.tlb, m.immu.enabled, InstructionMmu, m.pc, sm, false);
    TranslateMode(m.immu.tlb, m.immu.enabled, PageOf(m.pc), sm);
    PageOfPage(phy);
    PageOffset(phy);
    FetchWord(m.bus, PageOf(phy), m.pc, phy);
    hide PageOf, Translate, BusLoad, Get32, CacheSound, Bit;
  }

  lemma FetchMissRefines(m: Machine)
    requires m.Valid() && Coherent(m) && !m.fetch.Hits(m.pc)
    ensures AbsFetched(m.Fetch()) == Abs(m).Fetch()
    ensures !m.Fetch().NoFetch? ==> m.Fetch().s.Valid() && Coherent(m.Fetch().s)
  {
    var sm := m.r.Supervisor();
    var t := m.immu.Map(m.pc, sm, false);
    if t.Mapped? && t.phy < RAM_SIZE {
      FetchFillRefines(m);
    } else if t.Mapped? {
      OutsideRam(m.bus, t.phy);
      DeviceFetch(m, t.phy);
      hide PageOf, Translate, BusLoad, MmuState.Load, MmuState.AfterLoad, MmuState.AfterMap, Bit, CacheSound;
    } else {
      hide PageOf, Translate, CacheSound, Bit;
    }
  }

  lemma OutsideRam(bus: BusState, phy: uint32)
    requires bus.Valid() && phy >= RAM_SIZE
    ensures BusLoad(bus, 4, phy) == Fault(BusError)
  {
  }

  /** A fetch that maps outside RAM: the second translation misses the cache again and fails. */
  lemma DeviceFetch(m: Machine, phy: uint32)
    requires m.Valid() && Coherent(m) && m.immu.Map(m.pc, m.r.Supervisor(), false) == Mapped(phy) && phy >= RAM_SIZE
    ensures var u := m.immu.AfterMap(m.pc, m.r.Supervisor(), false);
            && u.tlb == m.immu.tlb && u.enabled == m.immu.enabled && u.kind == m.immu.kind
            && u.Load(m.bus, 4, m.pc, m.r.Supervisor()) == Fault(BusError)
            && u.AfterLoad(4, m.pc, m.r.Supervisor()) == u && CacheSound(u, m.r.Supervisor())
  {
    hide PageOf, BusLoad, Bit, Permits, Tlb.Matches, Tlb.Entry;
    OutsideRam(m.bus, phy);
    MapKeepsSound(m.immu, m.pc, m.r.Supervisor(), false);
  }

  /** Every fetch, cached or not, is the reference machine's. */
  lemma FetchRefines(m: Machine)
    requires m.Valid() && Coherent(m)
    ensures AbsFetched(m.Fetch()) == Abs(m).Fetch()
    ensures !m.Fetch().NoFetch? ==> m.Fetch().s.Valid() && Coherent(m.Fetch().s)
  {
    if m.fetch.Hits(m.pc) { FetchHitRefines(m); } else { FetchMissRefines(m); }
  }

  // ---------------------------------------------------------------- cycles and runs

  /** The cycle from a does none of the four excluded things. */
  predicate ConformingCycle(a: Reference)
    requires a.Valid()
  {
    var t := a.(r := a.r.Ticked());
    !t.r.TickRaises() && t.Fetch().Word? ==> (DecodeDecoded(t.Fetch().w); Conforms(t, Decode(t.Fetch().w)))
  }

  predicate ConformingCycles(a: Reference, n: nat)
    requires a.Valid()
    decreases n
  {
    n > 0 ==>
      && ConformingCycle(a)
      && (a.Cycle().Continue? ==> (CycleKeepsValid(a); ConformingCycles(a.Cycle().s, n - 1)))
  }

  /** The cycle from m does none of the four, given what is cached. */
  predicate FaithfulCycle(m: Machine)
    requires m.Valid()
  {
    TickedValid(m);
    var t := m.(r := m.r.Ticked());
    FetchKeeps(t);
    !t.r.TickRaises() && t.Fetch().Word? ==> (DecodeDecoded(t.Fetch().w); !Deviates(t.Fetch().s, Decode(t.Fetch().w)))
  }

  predicate FaithfulCycles(m: Machine, n: nat)
    requires m.Valid()
    decreases n
  {
    n > 0 ==>
      && FaithfulCycle(m)
      && (m.Cycle().Continue? ==> (CycleValid(m); FaithfulCycles(m.Cycle().s, n - 1)))
  }

  /** Every one of n cycles is the reference machine's and leaves the caches right. */
  predicate TracksCycles(m: Machine, n: nat)
    requires m.Valid()
    decreases n
  {
    n > 0 ==>
      && Agrees(m.Cycle(), Abs(m).Cycle())
      && (m.Cycle().Continue? ==> (CycleValid(m); TracksCycles(m.Cycle().s, n - 1)))
  }

  lemma TickRefines(m: Machine)
    requires m.Valid() && Coherent(m)
    ensures var t := m.(r := m.r.Ticked());
            && t.Valid() && Coherent(t) && Abs(t) == Abs(m).(r := Abs(m).r.Ticked())
  {
    hide Bit;
    SameCaches(m, m.(r := m.r.Ticked()));
  }

  lemma AbsValid(m: Machine)
    requires m.Valid()
    ensures Abs(m).Valid()
  {
    hide Bit;
  }

  /** A cycle that executes an instruction is that instruction's step, on either machine. */
  lemma MachineCycle(s: Machine, u: Machine)
    requires s.Valid() && u.Valid() && u == s.(r := s.r.Ticked()) && !u.r.TickRaises() && u.Fetch().Word?
    ensures u.Fetch().s.Valid() && Decoded(Decode(u.Fetch().w))
    ensures s.Cycle() == u.Fetch().s.Exec(Decode(u.Fetch().w))
  {
    FetchKeeps(u);
    DecodeDecoded(u.Fetch().w);
    hide Machine.Valid, Machine.Fetch, Machine.Exec, Decode, Decoded, Regs.Ticked, Regs.TickRaises;
  }

  lemma ReferenceCycle(s: Machine, u: Machine)
    requires s.Valid() && u.Valid() && Coherent(u) && u == s.(r := s.r.Ticked()) && !u.r.TickRaises() && u.Fetch().Word?
    ensures Abs(s).Valid() && u.Fetch().s.Valid() && Abs(u.Fetch().s).Valid() && Decoded(Decode(u.Fetch().w))
    ensures Abs(s).Cycle() == Abs(u.Fetch().s).Exec(Decode(u.Fetch().w))
  {
    AbsValid(s);
    AbsValid(u);
    FetchKeeps(u);
    AbsValid(u.Fetch().s);
    FetchRefines(u);
    DecodeDecoded(u.Fetch().w);
    hide Machine.Valid, Reference.Valid, Machine.Fetch, Reference.Fetch, Reference.Exec, Coherent, Decode, Decoded,
         Regs.Ticked, Regs.TickRaises;
  }

  /** A cycle that executes none agrees. */
  lemma NoInstruction(m: Machine)
    requires m.Valid() && Coherent(m)
    requires var t := m.(r := m.r.Ticked());
             t.Valid() && Coherent(t) && (t.r.TickRaises() || !t.Fetch().Word?)
    ensures Agrees(m.Cycle(), Abs(m).Cycle()) && FaithfulCycle(m)
  {
    var t := m.(r := m.r.Ticked());
    TickRefines(m);
    FetchRefines(t);
    FetchKeeps(t);
    hide Machine.Fetch, Reference.Fetch, Coherent, Machine.Valid, Reference.Valid, Regs.Ticked, Regs.TickRaises,
         WithDsx, Bit, Machine.Throw, Reference.Raise, CachesEmpty;
    if t.r.TickRaises() {
      ThrowRefines(t, TickTimerInterrupt, 0);
    } else if t.Fetch().FetchFault? {
      ThrowRefines(t.Fetch().s, t.Fetch().exception, t.Fetch().s.pc);
    }
  }

  lemma FaithfulInstruction(m: Machine)
    requires m.Valid()
    requires var t := m.(r := m.r.Ticked());
             t.Valid() && !t.r.TickRaises() && t.Fetch().Word?
    ensures var f := m.(r := m.r.Ticked()).Fetch();
            f.s.Valid() && Decoded(Decode(f.w)) && (FaithfulCycle(m) <==> !Deviates(f.s, Decode(f.w)))
  {
    var t := m.(r := m.r.Ticked());
    FetchKeeps(t);
    DecodeDecoded(t.Fetch().w);
    hide Machine.Valid, Machine.Fetch, Decode, Decoded, Deviates, Regs.Ticked, Regs.TickRaises;
  }

  lemma CycleExact(m: Machine)
    requires m.Valid() && Coherent(m)
    ensures Agrees(m.Cycle(), Abs(m).Cycle()) <==> FaithfulCycle(m)
  {
    hide *;
    AbsValid(m);
    TickRefines(m);
    var t := m.(r := m.r.Ticked());
    if t.r.TickRaises() || !t.Fetch().Word? {
      NoInstruction(m);
    } else {
      FetchRefines(t);
      MachineCycle(m, t);
      ReferenceCycle(m, t);
      FaithfulInstruction(m);
      ExecExact(t.Fetch().s, Decode(t.Fetch().w));
    }
  }

  lemma ConformingIsFaithful(m: Machine)
    requires m.Valid() && Coherent(m) && ConformingCycle(Abs(m))
    ensures FaithfulCycle(m)
  {
    var t := m.(r := m.r.Ticked());
    TickRefines(m);
    FetchRefines(t);
    FetchKeeps(t);
    hide Machine.Fetch, Reference.Fetch, Machine.Exec, Reference.Exec, Decode, Decoded, Deviates, Conforms, Coherent,
         Machine.Valid, Reference.Valid, Regs.Ticked, Regs.TickRaises, Bit;
    if !t.r.TickRaises() && t.Fetch().Word? {
      DecodeDecoded(t.Fetch().w);
      ConformsIsEnough(t.Fetch().s, Decode(t.Fetch().w));
    }
  }

  /** For every number of cycles: the simulator tracks the reference machine cycle by cycle exactly
      if none of them does one of the four. */
  lemma {:induction false} TracksExactly(m: Machine, n: nat)
    requires m.Valid() && Coherent(m)
    ensures TracksCycles(m, n) <==> FaithfulCycles(m, n)
    decreases n
  {
    hide Machine.Cycle, Reference.Cycle, AbsStep, FaithfulCycle, Coherent;
    if n > 0 {
      CycleExact(m);
      CycleValid(m);
      if m.Cycle().Continue? && FaithfulCycle(m) { TracksExactly(m.Cycle().s, n - 1); }
    }
  }

  lemma {:induction false} CyclesRefine(m: Machine, n: nat)
    requires m.Valid() && Coherent(m) && FaithfulCycles(m, n)
    ensures AbsStep(RunCycles(m, n)) == ReferenceCycles(Abs(m), n)
    ensures CoherentStep(RunCycles(m, n))
    decreases n
  {
    hide Machine.Cycle, Reference.Cycle, FaithfulCycle, Coherent;
    if n > 0 {
      CycleExact(m);
      CycleValid(m);
      CycleKeepsValid(Abs(m));
      match m.Cycle()
      case Continue(m') => CyclesRefine(m', n - 1);
      case _ =>
    }
  }

  lemma {:induction false} ConformingAreFaithful(m: Machine, n: nat)
    requires m.Valid() && Coherent(m) && ConformingCycles(Abs(m), n)
    ensures FaithfulCycles(m, n)
    decreases n
  {
    hide Machine.Cycle, Reference.Cycle, FaithfulCycle, ConformingCycle, Coherent;
    if n > 0 {
      ConformingIsFaithful(m);
      CycleExact(m);
      CycleValid(m);
      CycleKeepsValid(Abs(m));
      if m.Cycle().Continue? { ConformingAreFaithful(m.Cycle().s, n - 1); }
    }
  }

  lemma CheckRefines(m: Machine)
    requires m.Valid() && Coherent(m)
    ensures Abs(m.CheckInterrupts()) == Abs(m).CheckInterrupts()
    ensures m.CheckInterrupts().Valid() && Coherent(m.CheckInterrupts())
  {
    CheckValid(m);
    var s := m.(r := m.r.Sampled(m.bus.Interrupts()));
    hide CacheSound, FetchSound, Regs.InterruptDue, WithDsx, Bit;
    SameCaches(m, s);
    if s.r.InterruptDue() {
      ThrowRefines(s, ExternalInterrupt, 0);
      SameCaches(s.Throw(ExternalInterrupt, 0), m.CheckInterrupts());
    }
  }

  predicate ConformingRun(a: Reference, n: nat)
    requires a.Valid()
  {
    SampleKeepsValid(a);
    ConformingCycles(a.CheckInterrupts(), n)
  }

  predicate FaithfulRun(m: Machine, n: nat)
    requires m.Valid()
  {
    CheckValid(m);
    FaithfulCycles(m.CheckInterrupts(), n)
  }

  /** For every coherent state, program and cycle count: a faithful run of the simulator is
      a run of the reference machine, step for step and to the same end. */
  lemma RunRefines(m: Machine, n: nat)
    requires m.Valid() && Coherent(m) && FaithfulRun(m, n)
    ensures AbsStep(MachineRun(m, n)) == ReferenceRun(Abs(m), n)
    ensures CoherentStep(MachineRun(m, n))
  {
    hide Coherent, Machine.CheckInterrupts, Reference.CheckInterrupts;
    CheckRefines(m);
    CyclesRefine(m.CheckInterrupts(), n);
  }

  lemma ConformingRunIsFaithful(m: Machine, n: nat)
    requires m.Valid() && Coherent(m) && ConformingRun(Abs(m), n)
    ensures FaithfulRun(m, n)
  {
    hide Coherent, Machine.CheckInterrupts, Reference.CheckInterrupts;
    CheckRefines(m);
    ConformingAreFaithful(m.CheckInterrupts(), n);
  }

  // ---------------------------------------------------------------- sessions

  /** What the host does with a system: run it, press keys, read the display, load an image. */
  datatype HostAction = RunFor(n: nat) | Press(c: uint8) | ReadDisplay | LoadImage(image: seq<uint8>, start: uint32)

  /** Loading an image that fits and is not a whole number of words ends the process. */
  predicate EndsProcess(image: seq<uint8>) { |image| <= RAM_SIZE && |image| % 4 != 0 }

  /** RAM after loading an image at address 0: unchanged if it does not fit. */
  function Imaged(mem: seq<uint8>, image: seq<uint8>): (r: seq<uint8>)
    ensures |r| == |mem|
  {
    if |image| <= |mem| then Overlay(mem, 0, image) else mem
  }

  lemma ResetValid(m: Machine)
    requires m.Valid()
    ensures m.Reset().Valid() && Coherent(m.Reset()) && Abs(m.Reset()) == Abs(m).Reset() && Abs(m).Reset().Valid()
    ensures CachesEmpty(m.Reset())
  {
  }

  function Act(m: Machine, act: HostAction): (r: Step<Machine>)
    requires m.Valid()
    ensures !r.Stuck? ==> r.s.Valid()
  {
    match act
    case RunFor(n) => MachineRun(m, n)
    case Press(c) => Continue(m.(bus := m.bus.(uart := m.bus.uart.Press(c))))
    case ReadDisplay => Continue(m.(bus := m.bus.(uart := m.bus.uart.HostRead().0)))
    case LoadImage(image, start) =>
      ResetValid(m);
      var t := m.Reset();
      if EndsProcess(image) then Stuck else Continue(t.(pc := start, bus := t.bus.(mem := Imaged(t.bus.mem, image))))
  }

  function ReferenceAct(a: Reference, act: HostAction): (r: Step<Reference>)
    requires a.Valid()
    ensures !r.Stuck? ==> r.s.Valid()
  {
    match act
    case RunFor(n) => ReferenceRun(a, n)
    case Press(c) => Continue(a.(bus := a.bus.(uart := a.bus.uart.Press(c))))
    case ReadDisplay => Continue(a.(bus := a.bus.(uart := a.bus.uart.HostRead().0)))
    case LoadImage(image, start) =>
      var t := a.Reset().Enter(start);
      if EndsProcess(image) then Stuck else Continue(t.(bus := t.bus.(mem := Imaged(t.bus.mem, image))))
  }

  /** A session: actions in order, going on after a run that stopped, ending when stuck. */
  function Session(m: Machine, acts: seq<HostAction>): (r: Step<Machine>)
    requires m.Valid()
    ensures !r.Stuck? ==> r.s.Valid()
    decreases |acts|
  {
    if acts == [] then Continue(m)
    else match Act(m, acts[0])
      case Stuck => Stuck
      case other => Session(other.s, acts[1..])
  }

  function ReferenceSession(a: Reference, acts: seq<HostAction>): (r: Step<Reference>)
    requires a.Valid()
    ensures !r.Stuck? ==> r.s.Valid()
    decreases |acts|
  {
    if acts == [] then Continue(a)
    else match ReferenceAct(a, acts[0])
      case Stuck => Stuck
      case other => ReferenceSession(other.s, acts[1..])
  }

  /** Every run of the session conforms. */
  predicate ConformingSession(a: Reference, acts: seq<HostAction>)
    requires a.Valid()
    decreases |acts|
  {
    acts != [] ==>
      && (acts[0].RunFor? ==> ConformingRun(a, acts[0].n))
      && (!ReferenceAct(a, acts[0]).Stuck? ==> ConformingSession(ReferenceAct(a, acts[0]).s, acts[1..]))
  }

  predicate FaithfulSession(m: Machine, acts: seq<HostAction>)
    requires m.Valid()
    decreases |acts|
  {
    acts != [] ==>
      && (acts[0].RunFor? ==> FaithfulRun(m, acts[0].n))
      && (!Act(m, acts[0]).Stuck? ==> FaithfulSession(Act(m, acts[0]).s, acts[1..]))
  }

  lemma ActRefines(m: Machine, act: HostAction)
    requires m.Valid() && Coherent(m) && (act.RunFor? ==> FaithfulRun(m, act.n))
    ensures AbsStep(Act(m, act)) == ReferenceAct(Abs(m), act)
    ensures CoherentStep(Act(m, act))
  {
    hide MachineRun, ReferenceRun, CacheSound, FetchSound, Machine.Reset, Reference.Reset, Bit;
    match act
    case RunFor(n) => RunRefines(m, n);
    case LoadImage(image, start) =>
      ResetValid(m);
      ResetSlot(m);
      if !EndsProcess(image) { SameCaches(m.Reset(), Act(m, act).s); }
    case Press(c) => SameCaches(m, Act(m, act).s);
    case ReadDisplay => SameCaches(m, Act(m, act).s);
  }

  lemma ResetSlot(m: Machine)
    requires m.Valid()
    ensures !m.Reset().slot && m.Reset().r == Abs(m).Reset().r && m.Reset().bus == m.bus
    ensures m.Reset().immu.tlb == Abs(m).Reset().itlb && m.Reset().dmmu.tlb == Abs(m).Reset().dtlb
  {
  }

  /** The main theorem: over every session, however the host interleaves runs, keys, display
      reads and image loads, the simulator does what the reference machine does. */
  lemma {:induction false} SessionRefines(m: Machine, acts: seq<HostAction>)
    requires m.Valid() && Coherent(m) && FaithfulSession(m, acts)
    ensures AbsStep(Session(m, acts)) == ReferenceSession(Abs(m), acts)
    ensures CoherentStep(Session(m, acts))
    decreases |acts|
  {
    hide Act, ReferenceAct, FaithfulRun, Coherent;
    if acts != [] {
      ActRefines(m, acts[0]);
      if !Act(m, acts[0]).Stuck? { SessionRefines(Act(m, acts[0]).s, acts[1..]); }
    }
  }

  lemma {:induction false} ConformingSessionIsFaithful(m: Machine, acts: seq<HostAction>)
    requires m.Valid() && Coherent(m) && ConformingSession(Abs(m), acts)
    ensures FaithfulSession(m, acts)
    decreases |acts|
  {
    hide Act, ReferenceAct, FaithfulRun, ConformingRun, Coherent;
    if acts != [] {
      if acts[0].RunFor? { ConformingRunIsFaithful(m, acts[0].n); }
      ActRefines(m, acts[0]);
      if !Act(m, acts[0]).Stuck? { ConformingSessionIsFaithful(Act(m, acts[0]).s, acts[1..]); }
    }
  }

  /** From reset, with a condition on the reference machine's session alone. */
  lemma ResetSessionRefines(m: Machine, acts: seq<HostAction>)
    requires m.Valid() && Abs(m).Reset().Valid() && ConformingSession(Abs(m).Reset(), acts)
    ensures m.Reset().Valid()
    ensures AbsStep(Session(m.Reset(), acts)) == ReferenceSession(Abs(m).Reset(), acts)
  {
    hide Machine.Reset, Reference.Reset, Session, ReferenceSession, ConformingSession, FaithfulSession, Coherent;
    ResetValid(m);
    ConformingSessionIsFaithful(m.Reset(), acts);
    SessionRefines(m.Reset(), acts);
  }
}
