/** External interrupts over whole sessions (simctty/cpu.cc, simctty/bus.cc): deliveries are
    paid for by edges of the sampled lines, and a held line is delivered once. */
module Interrupts {
  import opened Words
  import opened Translation
  import opened Isa
  import opened Registers
  import opened Machine
  import opened Runs

  // ---------------------------------------------------------------- only sampling arms and disarms

  const STATUS: set<Spr> := {PicsrReg}

  /** From r to s no delivery is armed or disarmed; without a write of PICSR that stays too. */
  predicate PicKept(r: Regs, s: Regs, unwritten: bool) {
    s.pending == r.pending && (unwritten ==> s.picsr == r.picsr)
  }

  lemma MemoryKeepsPic(m: Machine, load: LoadKind, width: nat, d: nat, ea: uint32, v: uint32)
    requires m.Valid() && d < GPRS && width in {1, 2, 4}
    ensures !m.LoadInstr(load, d, ea).Stuck? ==> PicKept(m.r, m.LoadInstr(load, d, ea).s.r, true)
    ensures !m.StoreInstr(width, ea, v).Stuck? ==> PicKept(m.r, m.StoreInstr(width, ea, v).s.r, true)
  {
    hide Bit, WithDsx, MmuState.Load, MmuState.Store, LoadKind.Extend, Wrap;
  }

  lemma WriteSprKeepsPic(m: Machine, address: uint16, v: uint32)
    requires m.Valid()
    ensures !m.WriteSprInstr(address, v).Stuck? ==>
              PicKept(m.r, m.WriteSprInstr(address, v).s.r, SprAt(address) != PicsrReg)
  {
    hide Bit, WithDsx, SprAt;
  }

  lemma ControlKeepsPic(m: Machine, x: Instr)
    requires m.Valid() && Decoded(x) && IsControl(x)
    ensures PicKept(m.r, m.ControlInstr(x).s.r, true)
  {
    hide Bit, WithDsx, Wrap;
  }

  lemma ExecKeepsPic(m: Machine, x: Instr)
    requires m.Valid() && Decoded(x)
    ensures !m.Exec(x).Stuck? ==> PicKept(m.r, m.Exec(x).s.r, !WritesSpr(m, x, STATUS))
  {
    hide Machine.LoadInstr, Machine.StoreInstr, Machine.WriteSprInstr, Machine.ControlInstr, SprAt, SprAddress,
         WithFlag, AluValue, Holds, ReadSpr, Wrap;
    match x
    case Load(load, d, a, i) => MemoryKeepsPic(m, load, 1, d, Wrap(m.r.gpr[a] + i), 0);
    case Store(width, a, b, i) => MemoryKeepsPic(m, Lwz, width, 0, Wrap(m.r.gpr[a] + i), m.r.gpr[b]);
    case Mtspr(a, b, k) => WriteSprKeepsPic(m, SprAddress(m.r.gpr[a], k), m.r.gpr[b]);
    case MovHi(_, _) =>
    case AluImm(_, _, _, _) =>
    case Mfspr(_, _, _) =>
    case CompareImm(_, _, _) =>
    case Alu(_, _, _, _) =>
    case Compare(_, _, _) =>
    case _ => ControlKeepsPic(m, x);
  }

  lemma CycleKeepsPic(m: Machine)
    requires m.Valid()
    ensures !m.Cycle().Stuck? ==> PicKept(m.r, m.Cycle().s.r, Untouched(m, 1, STATUS))
  {
    hide Machine.Fetch, Machine.Exec, Decode, Decoded, WritesSpr, Regs.TickRaises, WithPending, WithDsx, Bit;
    var t := m.(r := m.r.Ticked());
    TickedValid(m);
    FetchKeeps(t);
    if t.Fetch().Word? {
      DecodeDecoded(t.Fetch().w);
      ExecKeepsPic(t.Fetch().s, Decode(t.Fetch().w));
    }
  }

  /** Whatever a program does in a run, it neither arms nor disarms a delivery; and it leaves PICSR
      as it was if it does not write it. */
  lemma {:induction false} CyclesKeepPic(m: Machine, n: nat)
    requires m.Valid()
    ensures !RunCycles(m, n).Stuck? ==> PicKept(m.r, RunCycles(m, n).s.r, Untouched(m, n, STATUS))
    decreases n
  {
    hide Machine.Cycle, Machine.Valid, Untouched;
    if n > 0 {
      CycleValid(m);
      CycleKeepsPic(m);
      if Untouched(m, n, STATUS) { UntouchedNext(m, n, STATUS); }
      if m.Cycle().Continue? { CyclesKeepPic(m.Cycle().s, n - 1); }
    }
  }

  // ---------------------------------------------------------------- counting over sessions

  /** The registers just after the sample that starts a run. */
  function AtSample(m: Machine): Regs { m.r.Sampled(m.bus.Interrupts()) }

  /** The sample sees the lines change to a level that is not zero. */
  predicate Edge(m: Machine) { m.bus.Interrupts() != m.r.picsr && m.bus.Interrupts() != 0 }

  /** The external interrupts delivered over a session. */
  function Deliveries(m: Machine, acts: seq<HostAction>): nat
    requires m.Valid()
    decreases |acts|
  {
    if acts == [] then 0
    else
      (if acts[0].RunFor? && AtSample(m).InterruptDue() then 1 else 0) +
      if Act(m, acts[0]).Stuck? then 0 else Deliveries(Act(m, acts[0]).s, acts[1..])
  }

  function Edges(m: Machine, acts: seq<HostAction>): nat
    requires m.Valid()
    decreases |acts|
  {
    if acts == [] then 0
    else
      (if acts[0].RunFor? && Edge(m) then 1 else 0) +
      if Act(m, acts[0]).Stuck? then 0 else Edges(Act(m, acts[0]).s, acts[1..])
  }

  function Outstanding(m: Machine): nat { if m.r.pending then 1 else 0 }

  /** What one action does to the armed delivery. */
  lemma ActArms(m: Machine, act: HostAction)
    requires m.Valid() && !Act(m, act).Stuck?
    ensures act.RunFor? ==> Act(m, act).s.r.pending == (AtSample(m).pending && !AtSample(m).InterruptDue())
    ensures act.LoadImage? ==> !Act(m, act).s.r.pending
    ensures act.Press? || act.ReadDisplay? ==> Act(m, act).s.r.pending == m.r.pending
  {
    CheckValid(m);
    if act.RunFor? {
      SampleArms(m);
      hide Machine.CheckInterrupts, Regs.InterruptDue, Regs.Sampled, RunCycles;
      CyclesKeepPic(m.CheckInterrupts(), act.n);
    } else {
      hide Regs.InterruptDue, Regs.Sampled, Bit;
    }
  }

  lemma SampleArms(m: Machine)
    ensures m.CheckInterrupts().r.pending == (AtSample(m).pending && !AtSample(m).InterruptDue())
  {
    hide Bit, Bitwise32, WithDsx;
  }

  /** For every session: the interrupts delivered never exceed the edges sampled, plus one if a
      delivery was armed at the start. */
  lemma {:induction false} DeliveriesPaidByEdges(m: Machine, acts: seq<HostAction>)
    requires m.Valid()
    ensures Deliveries(m, acts) <= Edges(m, acts) + Outstanding(m)
    decreases |acts|
  {
    if acts != [] {
      hide Act, Bit, Bitwise32;
      if !Act(m, acts[0]).Stuck? {
        ActArms(m, acts[0]);
        DeliveriesPaidByEdges(Act(m, acts[0]).s, acts[1..]);
      }
    }
  }

  /** At every sample of the session the lines hold the level that PICSR shows already: nothing
      rewrites it, and no image is loaded. */
  predicate HeldLine(m: Machine, acts: seq<HostAction>)
    requires m.Valid()
    decreases |acts|
  {
    acts != [] ==>
      && !acts[0].LoadImage?
      && (acts[0].RunFor? ==> m.bus.Interrupts() == m.r.picsr)
      && (!Act(m, acts[0]).Stuck? ==> HeldLine(Act(m, acts[0]).s, acts[1..]))
  }

  /** IEE and the mask admit the held line at the sample that starts a run. */
  predicate Admitted(m: Machine) { Bit(m.r.sr, IEE) && Bitwise32(AndBits, m.r.picsr, m.r.picmr) != 0 }

  predicate EverAdmitted(m: Machine, acts: seq<HostAction>)
    requires m.Valid()
    decreases |acts|
  {
    acts != [] &&
      ((acts[0].RunFor? && Admitted(m)) || (!Act(m, acts[0]).Stuck? && EverAdmitted(Act(m, acts[0]).s, acts[1..])))
  }

  /** A held line whose edge has been seen is delivered exactly once, at the first sample that
      admits it: once over every session that has such a sample, and not before. */
  lemma {:induction false} HeldLineDeliveredOnce(m: Machine, acts: seq<HostAction>)
    requires m.Valid() && HeldLine(m, acts)
    ensures Deliveries(m, acts) == if m.r.pending && EverAdmitted(m, acts) then 1 else 0
    decreases |acts|
  {
    if acts != [] {
      hide Act, Bit, Bitwise32;
      if !Act(m, acts[0]).Stuck? {
        ActArms(m, acts[0]);
        HeldLineDeliveredOnce(Act(m, acts[0]).s, acts[1..]);
      }
    }
  }

  /** From the edge on: a line that rises at the sample of a run and is then held is delivered
      exactly once over the session, at the first sample, this one or a later one, that admits it,
      and not at all if none does. */
  lemma EdgeDeliveredOnce(m: Machine, acts: seq<HostAction>)
    requires m.Valid() && acts != [] && acts[0].RunFor? && Edge(m)
    requires !Act(m, acts[0]).Stuck? ==> HeldLine(Act(m, acts[0]).s, acts[1..])
    ensures var here := Admitted(m.(r := AtSample(m)));
            var later := !Act(m, acts[0]).Stuck? && EverAdmitted(Act(m, acts[0]).s, acts[1..]);
            Deliveries(m, acts) == if here || later then 1 else 0
  {
    EdgeArms(m);
    hide Act, AtSample, Edge, Admitted, Regs.InterruptDue, Machine.CheckInterrupts, Machine.Valid, Bit;
    if !Act(m, acts[0]).Stuck? {
      ActArms(m, acts[0]);
      HeldLineDeliveredOnce(Act(m, acts[0]).s, acts[1..]);
    }
  }

  /** The sample that sees an edge arms a delivery, and takes it at once if it is admitted. */
  lemma EdgeArms(m: Machine)
    requires Edge(m)
    ensures var s := m.(r := AtSample(m));
            && s.r.pending && s.r.picsr == m.bus.Interrupts()
            && (AtSample(m).InterruptDue() <==> Admitted(s)) && AtSample(m).pending
            && m.CheckInterrupts().r.pending == !Admitted(s)
  {
    hide Bit, Bitwise32, WithDsx;
  }

  // ---------------------------------------------------------------- a held line, from the outside

  /** No image is loaded, no run writes PICSR, and at every sample the lines are at this level. */
  predicate Steady(m: Machine, acts: seq<HostAction>, level: uint32)
    requires m.Valid()
    decreases |acts|
  {
    CheckValid(m);
    acts != [] ==>
      && !acts[0].LoadImage?
      && (acts[0].RunFor? ==> m.bus.Interrupts() == level && Untouched(m.CheckInterrupts(), acts[0].n, STATUS))
      && (!Act(m, acts[0]).Stuck? ==> Steady(Act(m, acts[0]).s, acts[1..], level))
  }

  /** One action with steady lines leaves PICSR at their level. */
  lemma ActKeepsLevel(m: Machine, act: HostAction, level: uint32)
    requires m.Valid() && Steady(m, [act], level) && !Act(m, act).Stuck? && (act.RunFor? || m.r.picsr == level)
    ensures Act(m, act).s.r.picsr == level
  {
    CheckValid(m);
    SampleKeepsLines(m);
    hide Machine.Valid, Machine.CheckInterrupts, Untouched, RunCycles;
    if act.RunFor? { CyclesKeepPic(m.CheckInterrupts(), act.n); }
  }

  lemma SampleKeepsLines(m: Machine)
    ensures m.CheckInterrupts().r.picsr == m.bus.Interrupts()
  {
    hide Bit, Bitwise32, WithDsx;
  }

  /** Then the level that PICSR shows is the one sampled, at every run. */
  lemma {:induction false} SteadyIsHeld(m: Machine, acts: seq<HostAction>, level: uint32)
    requires m.Valid() && m.r.picsr == level && Steady(m, acts, level)
    ensures HeldLine(m, acts)
    decreases |acts|
  {
    if acts != [] {
      FirstSteady(m, acts, level);
      if !Act(m, acts[0]).Stuck? {
        ActKeepsLevel(m, acts[0], level);
        SteadyIsHeld(Act(m, acts[0]).s, acts[1..], level);
      }
    }
    hide Act, Machine.Valid, Machine.CheckInterrupts, Untouched;
  }

  lemma FirstSteady(m: Machine, acts: seq<HostAction>, level: uint32)
    requires m.Valid() && acts != [] && Steady(m, acts, level)
    ensures Steady(m, [acts[0]], level) && (!Act(m, acts[0]).Stuck? ==> Steady(Act(m, acts[0]).s, acts[1..], level))
  {
    hide Act, Machine.Valid, Machine.CheckInterrupts, Untouched;
  }

  /** A line that rises at the sample of a run and keeps its level at every later sample, while no
      program writes PICSR, is delivered exactly once: at the first sample that admits it. */
  lemma SteadyLineDeliveredOnce(m: Machine, acts: seq<HostAction>)
    requires m.Valid() && acts != [] && acts[0].RunFor? && Edge(m) && Steady(m, acts, m.bus.Interrupts())
    ensures var here := Admitted(m.(r := AtSample(m)));
            var later := !Act(m, acts[0]).Stuck? && EverAdmitted(Act(m, acts[0]).s, acts[1..]);
            Deliveries(m, acts) == if here || later then 1 else 0
  {
    hide Act, Machine.Valid, Machine.CheckInterrupts, Steady, HeldLine, AtSample, Admitted, Edge, Deliveries,
         EverAdmitted;
    FirstSteady(m, acts, m.bus.Interrupts());
    if !Act(m, acts[0]).Stuck? {
      ActKeepsLevel(m, acts[0], m.bus.Interrupts());
      SteadyIsHeld(Act(m, acts[0]).s, acts[1..], m.bus.Interrupts());
    }
    EdgeDeliveredOnce(m, acts);
  }
}
