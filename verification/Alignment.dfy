/** The program counter, the pending jump target and the saved program counter stay word
    aligned (simctty/cpu.cc), as long as the registers jumped through and the values software
    writes to EPCR are. */
module Alignment {
  import opened Words
  import opened Exceptions
  import opened Translation
  import opened Isa
  import opened Registers
  import opened Machine
  import opened Runs

  predicate Aligned(m: Machine) {
    m.pc % 4 == 0 && (m.slot ==> m.target % 4 == 0) && m.r.epcr % 4 == 0
  }

  /** The instruction brings in an unaligned address: a jump through an unaligned register
      (other than the link register that the jump itself sets), or such a write of EPCR that no
      timer exception overwrites at once. */
  predicate Misaligns(m: Machine, x: Instr)
    requires m.Valid() && Decoded(x)
  {
    || (x.JumpReg? && m.r.gpr[x.b] % 4 != 0)
    || (x.JumpLinkReg? && x.b != 9 && m.r.gpr[x.b] % 4 != 0)
    || (x.Mtspr? && SprAt(SprAddress(m.r.gpr[x.a], x.k)) == EpcrReg && m.r.gpr[x.b] % 4 != 0
        && !m.r.TimerDue())
  }

  predicate WordOffset(x: Instr) {
    (x.Jump? ==> x.offset % 4 == 0) && (x.JumpLink? ==> x.offset % 4 == 0) && (x.Branch? ==> x.offset % 4 == 0)
  }

  lemma WrapAligned(x: int, y: int)
    requires x % 4 == 0 && y % 4 == 0
    ensures Wrap(x + y) % 4 == 0
  {
    var s := x + y;
    SumAligned(x, y);
    assert s == 4 * (s / 4);
    assert Wrap(s) == s - 0x1_0000_0000 * (s / 0x1_0000_0000);
    QuotientUnique(Wrap(s), 4, s / 4 - 0x4000_0000 * (s / 0x1_0000_0000), 0);
  }

  lemma SumAligned(x: int, y: int)
    requires x % 4 == 0 && y % 4 == 0
    ensures (x + y) % 4 == 0
  {
    QuotientUnique(x + y, 4, x / 4 + y / 4, 0);
  }

  lemma VectorAligned(e: Exception)
    ensures Vector(e) % 4 == 0
  {
  }

  lemma ThrowAligned(m: Machine, e: Exception, ea: uint32)
    requires Aligned(m)
    ensures Aligned(m.Throw(e, ea))
  {
    WrapAligned(m.pc, -4);
    VectorAligned(e);
    hide Wrap, Vector, WithDsx, Bit;
  }

  lemma IncrementAligned(m: Machine)
    requires Aligned(m)
    ensures Aligned(m.IncrementPC())
  {
    WrapAligned(m.pc, 4);
    hide Wrap;
  }

  lemma JumpAligned(m: Machine, next: uint32)
    requires Aligned(m) && next % 4 == 0
    ensures Aligned(m.JumpTo(next))
  {
    WrapAligned(m.pc, 4);
    hide Wrap;
  }

  lemma ControlAligned(m: Machine, x: Instr)
    requires m.Valid() && Aligned(m) && Decoded(x) && IsControl(x) && WordOffset(x) && !Misaligns(m, x)
    ensures Aligned(m.ControlInstr(x).s)
  {
    WrapAligned(m.pc, 4);
    WrapAligned(m.pc, 8);
    hide Wrap, Machine.Throw, Bit;
    IncrementAligned(m);
    match x
    case Jump(n) => WrapAligned(m.pc, n); JumpAligned(m, Wrap(m.pc + n));
    case JumpLink(n) => WrapAligned(m.pc, n); JumpAligned(m.SetGpr(9, Wrap(m.pc + 8)), Wrap(m.pc + n));
    case Branch(_, n) => WrapAligned(m.pc, n); JumpAligned(m, Wrap(m.pc + n));
    case Sys(_) => ThrowAligned(m.(pc := Wrap(m.pc + 4)), SystemCall, 0);
    case JumpReg(b) => JumpAligned(m, m.r.gpr[b]);
    case JumpLinkReg(b) => var l := m.SetGpr(9, Wrap(m.pc + 8)); JumpAligned(l, l.r.gpr[b]);
    case Illegal => ThrowAligned(m, IllegalInstruction, m.pc);
    case _ =>
  }

  lemma MemoryAligned(m: Machine, load: LoadKind, width: nat, d: nat, ea: uint32, v: uint32)
    requires m.Valid() && Aligned(m) && d < GPRS && width in {1, 2, 4}
    ensures !m.LoadInstr(load, d, ea).Stuck? ==> Aligned(m.LoadInstr(load, d, ea).s)
    ensures !m.StoreInstr(width, ea, v).Stuck? ==> Aligned(m.StoreInstr(width, ea, v).s)
  {
    hide Aligned, Machine.Throw, Machine.IncrementPC, MmuState.Load, MmuState.Store, MmuState.AfterLoad,
         MmuState.AfterStore, LoadKind.Extend, Bit;
    if m.dmmu.Load(m.bus, load.Width(), ea, m.r.Supervisor()).Fault? {
      var m' := m.(dmmu := m.dmmu.AfterLoad(load.Width(), ea, m.r.Supervisor()));
      AlignedAlike(m, m');
      ThrowAligned(m', m.dmmu.Load(m.bus, load.Width(), ea, m.r.Supervisor()).exception, ea);
    } else if m.dmmu.Load(m.bus, load.Width(), ea, m.r.Supervisor()).Value? {
      var reply := m.dmmu.Load(m.bus, load.Width(), ea, m.r.Supervisor());
      var u := m.dmmu.AfterLoad(load.Width(), ea, m.r.Supervisor());
      var m' := m.(dmmu := u, bus := reply.bus).SetGpr(d, load.Extend(reply.value));
      AlignedAlike(m, m');
      IncrementAligned(m');
    }
    if m.dmmu.Store(m.bus, width, ea, v, m.r.Supervisor()).Fault? {
      var m' := m.(dmmu := m.dmmu.AfterStore(width, ea, m.r.Supervisor()));
      AlignedAlike(m, m');
      ThrowAligned(m', m.dmmu.Store(m.bus, width, ea, v, m.r.Supervisor()).exception, ea);
    } else if m.dmmu.Store(m.bus, width, ea, v, m.r.Supervisor()).Value? {
      var u := m.dmmu.AfterStore(width, ea, m.r.Supervisor());
      var m' := m.(dmmu := u, bus := m.dmmu.Store(m.bus, width, ea, v, m.r.Supervisor()).bus);
      AlignedAlike(m, m');
      IncrementAligned(m');
    }
  }

  lemma AlignedAlike(m: Machine, m': Machine)
    requires Aligned(m) && m'.pc == m.pc && m'.slot == m.slot && m'.target == m.target && m'.r.epcr == m.r.epcr
    ensures Aligned(m')
  {
  }

  /** An exception saves an aligned program counter over whatever EPCR held. */
  lemma ThrowRealigns(m: Machine, m': Machine, e: Exception, ea: uint32)
    requires Aligned(m) && m'.pc == m.pc
    ensures Aligned(m'.Throw(e, ea))
  {
    WrapAligned(m.pc, -4);
    VectorAligned(e);
    hide Wrap, Vector, WithDsx, Bit;
  }

  lemma SpecialAligned(m: Machine, address: uint16, v: uint32)
    requires m.Valid() && Aligned(m)
    ensures var s := m.WriteSprInstr(address, v);
            var bad := SprAt(address) == EpcrReg && v % 4 != 0 && !m.r.TimerDue();
            (bad ==> s.Continue?) && (!s.Stuck? ==> (Aligned(s.s) <==> !bad))
  {
    if m.WriteSpr(address, v).Some? {
      var m' := m.WriteSpr(address, v).value;
      WrittenAligned(m, address, v);
      if m'.r.TimerDue() {
        ThrowRealigns(m, m', TickTimerInterrupt, 0);
      } else if m'.r.epcr % 4 == 0 {
        hide Machine.WriteSpr, Machine.IncrementPC;
        IncrementAligned(m');
      }
    } else {
      hide Bit, WithDsx;
    }
  }

  lemma WrittenAligned(m: Machine, address: uint16, v: uint32)
    requires m.Valid() && Aligned(m) && m.WriteSpr(address, v).Some?
    ensures var m' := m.WriteSpr(address, v).value;
            && m'.pc == m.pc && m'.slot == m.slot && m'.target == m.target
            && m'.r.epcr == (if SprAt(address) == EpcrReg then v else m.r.epcr)
            && (SprAt(address) == EpcrReg ==> m'.r.TimerDue() == m.r.TimerDue())
  {
    hide SprAt, Bit;
  }

  /** A jump through an unaligned register leaves an unaligned target pending. */
  lemma JumpMisaligns(m: Machine, x: Instr)
    requires m.Valid() && Decoded(x) && (x.JumpReg? || x.JumpLinkReg?) && Misaligns(m, x)
    ensures m.Exec(x).Continue? && !Aligned(m.Exec(x).s)
  {
    hide Wrap, SprAt, SprAddress;
  }

  /** An instruction keeps the three aligned exactly if it brings in no unaligned address. */
  lemma AlignedExactly(m: Machine, x: Instr)
    requires m.Valid() && Aligned(m) && Decoded(x) && WordOffset(x)
    ensures Misaligns(m, x) ==> m.Exec(x).Continue?
    ensures !m.Exec(x).Stuck? ==> (Aligned(m.Exec(x).s) <==> !Misaligns(m, x))
  {
    if !Misaligns(m, x) {
      hide Machine.Exec, Aligned, Misaligns;
      ExecAligned(m, x);
    } else if x.Mtspr? {
      hide Machine.WriteSprInstr, Aligned, SprAt, SprAddress, Bit;
      SpecialAligned(m, SprAddress(m.r.gpr[x.a], x.k), m.r.gpr[x.b]);
    } else {
      JumpMisaligns(m, x);
    }
  }

  /** Every instruction that does not bring in an unaligned address keeps the three aligned. */
  lemma ExecAligned(m: Machine, x: Instr)
    requires m.Valid() && Aligned(m) && Decoded(x) && WordOffset(x) && !Misaligns(m, x)
    ensures !m.Exec(x).Stuck? ==> Aligned(m.Exec(x).s)
  {
    hide Machine.LoadInstr, Machine.StoreInstr, Machine.WriteSprInstr, Machine.ControlInstr, Machine.IncrementPC,
         AluValue, Holds, ReadSpr, SprAt, SprAddress, Wrap, WithFlag;
    match x
    case Load(load, d, a, i) => MemoryAligned(m, load, 1, d, Wrap(m.r.gpr[a] + i), 0);
    case Store(width, a, b, i) => MemoryAligned(m, Lwz, width, 0, Wrap(m.r.gpr[a] + i), m.r.gpr[b]);
    case Mtspr(a, b, k) => SpecialAligned(m, SprAddress(m.r.gpr[a], k), m.r.gpr[b]);
    case MovHi(d, k) => IncrementAligned(m.SetGpr(d, k * 0x1_0000));
    case AluImm(op, d, a, k) => AluAligned(m, ImmToAlu(op), d, m.r.gpr[a], ImmOperand(op, k));
    case Alu(op, d, a, b) => AluAligned(m, op, d, m.r.gpr[a], m.r.gpr[b]);
    case Mfspr(d, a, k) => ReadAligned(m, d, SprAddress(m.r.gpr[a], k));
    case CompareImm(c, a, i) => IncrementAligned(m.(r := m.r.Compared(Holds(c, m.r.gpr[a], Wrap(i)))));
    case Compare(c, a, b) => IncrementAligned(m.(r := m.r.Compared(Holds(c, m.r.gpr[a], m.r.gpr[b]))));
    case _ => ControlAligned(m, x);
  }

  lemma AluAligned(m: Machine, op: AluOp, d: nat, x: uint32, y: uint32)
    requires m.Valid() && Aligned(m) && d < GPRS
    ensures !m.AluInstr(op, d, x, y).Stuck? ==> Aligned(m.AluInstr(op, d, x, y).s)
  {
    hide AluValue, Machine.IncrementPC;
    IncrementAligned(m.SetGpr(d, AluValue(op, x, y)));
  }

  lemma ReadAligned(m: Machine, d: nat, address: uint16)
    requires m.Valid() && Aligned(m) && d < GPRS
    ensures !m.ReadSprInstr(d, address).Stuck? ==> Aligned(m.ReadSprInstr(d, address).s)
  {
    hide ReadSpr, Machine.IncrementPC;
    var v := ReadSpr(m.r, m.immu.tlb, m.dmmu.tlb, address);
    if v.Some? { IncrementAligned(m.SetGpr(d, v.value)); }
  }

  lemma DecodedOffset(w: uint32)
    ensures WordOffset(Decode(w))
  {
    NField(w);
    hide FieldN, FieldD, FieldA, FieldB, FieldK, FieldSplitK, FieldFF, Signed16;
  }

  /** No cycle of the run brings in an unaligned address. */
  predicate NeverMisaligns(m: Machine, n: nat)
    requires m.Valid()
    decreases n
  {
    n > 0 ==>
      var t := m.(r := m.r.Ticked());
      TickedValid(m);
      FetchKeeps(t);
      && (!t.r.TickRaises() && t.Fetch().Word? ==>
            (DecodeDecoded(t.Fetch().w); !Misaligns(t.Fetch().s, Decode(t.Fetch().w))))
      && (m.Cycle().Continue? ==> (CycleValid(m); NeverMisaligns(m.Cycle().s, n - 1)))
  }

  lemma CycleAligned(m: Machine)
    requires m.Valid() && Aligned(m)
    ensures !NeverMisaligns(m, 1) ==> m.Cycle().Continue?
    ensures !m.Cycle().Stuck? ==> (Aligned(m.Cycle().s) <==> NeverMisaligns(m, 1))
  {
    hide Machine.Fetch, Machine.Exec, Decode, Decoded, Misaligns, Regs.TickRaises, Machine.Throw, WithPending, Bit;
    var t := m.(r := m.r.Ticked());
    TickedValid(m);
    FetchKeeps(t);
    FetchKeepsControl(t);
    if t.r.TickRaises() {
      ThrowAligned(t, TickTimerInterrupt, 0);
    } else {
      match t.Fetch()
      case Word(w, s) =>
        DecodeDecoded(w);
        DecodedOffset(w);
        AlignedAlike(t, s);
        AlignedExactly(s, Decode(w));
      case FetchFault(e, s) =>
        AlignedAlike(t, s);
        ThrowAligned(s, e, s.pc);
      case NoFetch =>
    }
  }

  lemma FetchKeepsControl(m: Machine)
    requires m.Valid()
    ensures !m.Fetch().NoFetch? ==>
              && m.Fetch().s.pc == m.pc && m.Fetch().s.slot == m.slot
              && m.Fetch().s.target == m.target && m.Fetch().s.r == m.r
  {
    hide MmuState.Map, MmuState.AfterMap, MmuState.Load, MmuState.AfterLoad, Machine.CachedWord, PageOf;
  }

  /** After every one of n cycles the three are aligned. */
  predicate StaysAligned(m: Machine, n: nat)
    requires m.Valid()
    decreases n
  {
    CycleValid(m);
    n > 0 ==>
      && (!m.Cycle().Stuck? ==> Aligned(m.Cycle().s))
      && (m.Cycle().Continue? ==> StaysAligned(m.Cycle().s, n - 1))
  }

  /** For every run: the program counter, pending target and EPCR stay multiples of 4 throughout
      exactly if no cycle brings in an unaligned address. */
  lemma {:induction false} StaysAlignedExactly(m: Machine, n: nat)
    requires m.Valid() && Aligned(m)
    ensures StaysAligned(m, n) <==> NeverMisaligns(m, n)
    decreases n
  {
    if n > 0 {
      hide Machine.Cycle, Machine.Fetch, Decode, Decoded, Misaligns, Regs.Ticked, Regs.TickRaises, Aligned;
      CycleValid(m);
      CycleAligned(m);
      if m.Cycle().Continue? && Aligned(m.Cycle().s) { StaysAlignedExactly(m.Cycle().s, n - 1); }
    }
  }

  /** So they are aligned when such cycles end. */
  lemma {:induction false} CyclesAligned(m: Machine, n: nat)
    requires m.Valid() && Aligned(m) && NeverMisaligns(m, n)
    ensures !RunCycles(m, n).Stuck? ==> Aligned(RunCycles(m, n).s)
    decreases n
  {
    if n > 0 {
      hide Machine.Cycle, Machine.Fetch, Decode, Decoded, Misaligns, Regs.Ticked, Regs.TickRaises, Aligned;
      CycleValid(m);
      CycleAligned(m);
      if m.Cycle().Continue? { CyclesAligned(m.Cycle().s, n - 1); }
    }
  }

  // ---------------------------------------------------------------- runs and sessions

  /** Sampling the interrupts, delivered or not, keeps the three aligned. */
  lemma SampleAligned(m: Machine)
    requires m.Valid() && Aligned(m)
    ensures m.CheckInterrupts().Valid() && Aligned(m.CheckInterrupts())
  {
    CheckValid(m);
    var s := m.(r := m.r.Sampled(m.bus.Interrupts()));
    AlignedAlike(m, s);
    ThrowAligned(s, ExternalInterrupt, 0);
    hide Aligned, Machine.Valid, Machine.Throw, Regs.InterruptDue;
    if s.r.InterruptDue() { AlignedAlike(s.Throw(ExternalInterrupt, 0), m.CheckInterrupts()); }
  }

  /** A whole run, the sample that opens it included, ends aligned. */
  lemma RunAligned(m: Machine, n: nat)
    requires m.Valid() && Aligned(m) && m.CheckInterrupts().Valid() && NeverMisaligns(m.CheckInterrupts(), n)
    ensures !MachineRun(m, n).Stuck? ==> Aligned(MachineRun(m, n).s)
  {
    hide Machine.Valid, Machine.CheckInterrupts, Aligned, NeverMisaligns, RunCycles;
    SampleAligned(m);
    CyclesAligned(m.CheckInterrupts(), n);
  }

  /** No run of the session brings in an unaligned address, and images start at aligned ones. */
  predicate SessionNeverMisaligns(m: Machine, acts: seq<HostAction>)
    requires m.Valid()
    decreases |acts|
  {
    CheckValid(m);
    acts != [] ==>
      && (acts[0].RunFor? ==> NeverMisaligns(m.CheckInterrupts(), acts[0].n))
      && (acts[0].LoadImage? ==> acts[0].start % 4 == 0)
      && (!Act(m, acts[0]).Stuck? ==> SessionNeverMisaligns(Act(m, acts[0]).s, acts[1..]))
  }

  lemma ActAligned(m: Machine, act: HostAction)
    requires m.Valid() && Aligned(m) && SessionNeverMisaligns(m, [act])
    ensures !Act(m, act).Stuck? ==> Aligned(Act(m, act).s)
  {
    CheckValid(m);
    hide Machine.Valid, Machine.CheckInterrupts, NeverMisaligns, MachineRun;
    if act.RunFor? { RunAligned(m, act.n); }
  }

  /** Over every such session, from any aligned system on, the three stay multiples of 4. */
  lemma {:induction false} SessionAligned(m: Machine, acts: seq<HostAction>)
    requires m.Valid() && Aligned(m) && SessionNeverMisaligns(m, acts)
    ensures !Session(m, acts).Stuck? ==> Aligned(Session(m, acts).s)
    decreases |acts|
  {
    hide Machine.Valid, Machine.CheckInterrupts, NeverMisaligns, Aligned, Act;
    if acts != [] {
      ActAligned(m, acts[0]);
      if !Act(m, acts[0]).Stuck? { SessionAligned(Act(m, acts[0]).s, acts[1..]); }
    }
  }
}
