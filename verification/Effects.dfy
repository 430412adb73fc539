/** What each kind of instruction leaves in the registers, in memory and in the program counter,
    in terms of the descriptions of its answer rather than of the functions that compute it. */
module Effects {
  import opened Words
  import opened Exceptions
  import opened Memory
  import opened Bus
  import opened Uart
  import opened Translation
  import opened Aliases
  import opened Isa
  import opened Registers
  import opened Machine
  import opened Meaning

  /** The address of the next instruction. */
  function Following(m: Machine): int {
    if m.slot then m.target else (m.pc + 4) % 0x1_0000_0000
  }

  /** The instruction has completed: s is where the run goes on, at the next instruction. */
  predicate Completed(m: Machine, step: Step<Machine>, s: Machine) {
    step == Continue(s) && s.pc == Following(m) && !s.slot
  }

  /** Register d, if any register, is all that has changed of what software can see. */
  predicate OnlyGpr(m: Machine, d: nat, s: Machine) {
    && s.r == m.r.(gpr := s.r.gpr) && s.bus == m.bus && s.immu == m.immu && s.fetch == m.fetch
    && s.dmmu == m.dmmu.(cache := s.dmmu.cache)
    && |s.r.gpr| == |m.r.gpr| == 32 && d < 32 && forall k :: 0 <= k < 32 && k != d ==> s.r.gpr[k] == m.r.gpr[k]
  }

  lemma FinishLeaves(m: Machine, d: nat, v: uint32)
    requires m.r.Valid() && d < GPRS
    ensures m.Finish(d, v).Continue?
    ensures var s := m.Finish(d, v).s;
            Completed(m, m.Finish(d, v), s) && OnlyGpr(m, d, s) && s.r.gpr[d] == v
  {
  }

  // ---------------------------------------------------------------- arithmetic

  lemma AluInstrLeaves(m: Machine, op: AluOp, d: nat, x: uint32, y: uint32)
    requires m.Valid() && d < GPRS && !Overflows(op, x, y)
    ensures m.AluInstr(op, d, x, y).Continue?
    ensures var s := m.AluInstr(op, d, x, y).s;
            && Completed(m, m.AluInstr(op, d, x, y), s) && OnlyGpr(m, d, s) && Computed(op, x, y, s.r.gpr[d])
  {
    FinishLeaves(m, d, AluValue(op, x, y));
    AluMeets(op, x, y);
    hide OnlyGpr, Completed, Computed, AluValue, Overflows, Machine.Finish;
  }

  /** A register operation, if it is defined, leaves in its destination the answer described. */
  lemma AluLeaves(m: Machine, x: Instr)
    requires m.Valid() && Decoded(x) && x.Alu? && !m.Exec(x).Stuck?
    ensures m.Exec(x).Continue?
    ensures var s := m.Exec(x).s;
            && Completed(m, m.Exec(x), s) && OnlyGpr(m, x.d, s)
            && Computed(x.op, m.r.gpr[x.a], m.r.gpr[x.b], s.r.gpr[x.d])
  {
    hide Completed, OnlyGpr, Computed, AluValue, Overflows, Machine.Finish;
    AluInstrLeaves(m, x.op, x.d, m.r.gpr[x.a], m.r.gpr[x.b]);
  }

  /** An immediate operation does so for the operand that its field stands for. */
  lemma ImmediateLeaves(m: Machine, x: Instr, op: AluOp, y: uint32)
    requires m.Valid() && Decoded(x) && x.AluImm? && Operation(x.imm, op) && Immediate(x.imm, x.k, y)
    ensures m.Exec(x).Continue?
    ensures var s := m.Exec(x).s;
            Completed(m, m.Exec(x), s) && OnlyGpr(m, x.d, s) && Computed(op, m.r.gpr[x.a], y, s.r.gpr[x.d])
  {
    hide Completed, OnlyGpr, Computed, AluValue, Immediate, ImmOperand, Machine.Finish;
    ImmediateExactly(x.imm, x.k, y);
    AluInstrLeaves(m, op, x.d, m.r.gpr[x.a], y);
  }

  /** l.movhi sets the high half and clears the low one. */
  lemma MovHiLeaves(m: Machine, x: Instr)
    requires m.Valid() && Decoded(x) && x.MovHi?
    ensures m.Exec(x).Continue?
    ensures var s := m.Exec(x).s;
            && Completed(m, m.Exec(x), s) && OnlyGpr(m, x.d, s)
            && s.r.gpr[x.d] / 0x1_0000 == x.k && s.r.gpr[x.d] % 0x1_0000 == 0
  {
    hide Completed, OnlyGpr, Machine.Finish;
    FinishLeaves(m, x.d, x.k * 0x1_0000);
  }

  // ---------------------------------------------------------------- comparisons

  /** F, the bit of weight 0x200, becomes the answer; every other bit of SR and everything else
      stays. */
  predicate OnlyFlag(m: Machine, flag: bool, s: Machine) {
    && s == m.(r := m.r.(sr := s.r.sr), pc := s.pc, slot := s.slot)
    && (s.r.sr / 0x200 % 2 == 1 <==> flag)
    && s.r.sr % 0x200 == m.r.sr % 0x200 && s.r.sr / 0x400 == m.r.sr / 0x400
  }

  lemma CompareInstrLeaves(m: Machine, c: Cond, x: uint32, y: uint32)
    requires m.Valid()
    ensures m.CompareInstr(c, x, y).Continue?
    ensures var s := m.CompareInstr(c, x, y).s;
            Completed(m, m.CompareInstr(c, x, y), s) && OnlyFlag(m, Answer(c, x, y), s)
  {
    FlagOnly(m.r.sr, Holds(c, x, y));
    HoldsExactly(c, x, y);
    hide WithFlag, Holds, Answer;
  }

  lemma CompareLeaves(m: Machine, x: Instr)
    requires m.Valid() && Decoded(x) && x.Compare?
    ensures m.Exec(x).Continue?
    ensures var s := m.Exec(x).s;
            && Completed(m, m.Exec(x), s)
            && OnlyFlag(m, Answer(x.cond, m.r.gpr[x.a], m.r.gpr[x.b]), s)
  {
    hide Completed, OnlyFlag, Answer, Holds;
    CompareInstrLeaves(m, x.cond, m.r.gpr[x.a], m.r.gpr[x.b]);
  }

  /** The immediate is sign-extended, for the unsigned comparisons as well. */
  lemma CompareImmLeaves(m: Machine, x: Instr, y: uint32)
    requires m.Valid() && Decoded(x) && x.CompareImm? && Signed(y) == x.i
    ensures m.Exec(x).Continue?
    ensures var s := m.Exec(x).s;
            Completed(m, m.Exec(x), s) && OnlyFlag(m, Answer(x.cond, m.r.gpr[x.a], y), s)
  {
    assert Wrap(x.i) == y;
    hide Completed, OnlyFlag, Answer, Holds, Wrap, Signed;
    CompareInstrLeaves(m, x.cond, m.r.gpr[x.a], y);
  }

  // ---------------------------------------------------------------- jumps and branches

  /** The slot instruction is next and the target is pending. */
  predicate Heads(m: Machine, target: int, s: Machine) {
    && s == m.(r := m.r.(gpr := s.r.gpr), pc := s.pc, slot := true, target := s.target)
    && s.pc == (m.pc + 4) % 0x1_0000_0000 && s.target == target
  }

  /** r9 becomes the address after the slot; no other register changes. */
  predicate Linked(m: Machine, s: Machine) {
    && |s.r.gpr| == |m.r.gpr| == 32 && s.r.gpr[9] == (m.pc + 8) % 0x1_0000_0000
    && forall k :: 0 <= k < 32 && k != 9 ==> s.r.gpr[k] == m.r.gpr[k]
  }

  lemma JumpLeaves(m: Machine, x: Instr)
    requires m.Valid() && Decoded(x) && (x.Jump? || x.JumpLink?)
    ensures m.Exec(x).Continue?
    ensures var s := m.Exec(x).s;
            && Heads(m, (m.pc + x.offset) % 0x1_0000_0000, s)
            && (if x.Jump? then s.r == m.r else Linked(m, s))
  {
  }

  /** l.jalr links before it reads its register: through r9 it leads to the address after the slot. */
  lemma JumpRegisterLeaves(m: Machine, x: Instr)
    requires m.Valid() && Decoded(x) && (x.JumpReg? || x.JumpLinkReg?)
    ensures m.Exec(x).Continue?
    ensures var s := m.Exec(x).s;
            && Heads(m, if x.JumpLinkReg? && x.b == 9 then (m.pc + 8) % 0x1_0000_0000 else m.r.gpr[x.b], s)
            && (if x.JumpReg? then s.r == m.r else Linked(m, s))
  {
  }

  /** l.bf jumps exactly if the bit of weight 0x200 in SR is set, l.bnf exactly if it is clear. */
  lemma BranchLeaves(m: Machine, x: Instr)
    requires m.Valid() && Decoded(x) && x.Branch?
    ensures m.Exec(x).Continue?
    ensures var s := m.Exec(x).s;
            if x.onFlag == (m.r.sr / 0x200 % 2 == 1) then Heads(m, (m.pc + x.offset) % 0x1_0000_0000, s) && s.r == m.r
            else Completed(m, m.Exec(x), s) && s == m.(pc := s.pc, slot := false)
  {
  }

  /** A comparison, then a branch on its result that is not itself in a slot. */
  lemma CompareThenBranch(m: Machine, x: Instr, b: Instr)
    requires m.Valid() && Decoded(x) && x.Compare? && Decoded(b) && b.Branch?
    ensures m.Exec(x).Continue? && m.Exec(x).s.Valid() && m.Exec(x).s.Exec(b).Continue?
    ensures m.Exec(x).s.Exec(b).s.slot <==> b.onFlag == Answer(x.cond, m.r.gpr[x.a], m.r.gpr[x.b])
  {
    ExecValid(m, x);
    CompareLeaves(m, x);
    BranchLeaves(m.Exec(x).s, b);
    hide Machine.Exec, Machine.Valid, Answer, Following;
  }

  /** l.nop 1 in supervisor mode and l.trap make the run return false, l.trap after moving on;
      any other l.nop does nothing. */
  lemma StopsExactly(m: Machine, x: Instr)
    requires m.Valid() && Decoded(x) && (x.Nop? || x.Trap?)
    ensures var step := m.Exec(x);
            if x.Trap? then step.Stopped? && !step.ok && step.s == m.(pc := Following(m), slot := false)
            else if m.r.sr % 2 == 1 && x.k == 1 then step == Stopped(m, false)
            else step == Continue(m.(pc := Following(m), slot := false))
  {
  }

  /** l.rfe: the saved program counter and SR, from nothing but EPCR and ESR. */
  lemma ReturnLeaves(m: Machine)
    requires m.Valid()
    ensures m.Exec(Rfe).Continue?
    ensures var s := m.Exec(Rfe).s;
            s.pc == m.r.epcr && !s.slot && s.r == m.r.(sr := m.r.esr) && s.bus == m.bus
  {
  }

  /** Reset: every register zero but SR, which has the supervisor bit and the bit of weight 2^15; no
      TLB entry is valid, and what software can reach over the bus is untouched. */
  lemma ResetLeaves(m: Machine)
    requires m.Valid()
    ensures var s := m.Reset();
            && s.Valid() && s.pc == 0 && !s.slot && s.bus == m.bus && s.r.sr == 0x8001
            && |s.r.gpr| == 32 && (forall k :: 0 <= k < 32 ==> s.r.gpr[k] == 0)
            && s.r.epcr == 0 && s.r.eear == 0 && s.r.esr == 0 && s.r.ttmr == 0 && s.r.ttcr == 0
            && s.r.picmr == 0 && s.r.picsr == 0 && !s.r.pending
            && forall a: uint32, sm: bool, write: bool ::
                 && Translate(s.dmmu.tlb, true, DataMmu, a, sm, write) == Missed(DtlbMiss)
                 && Translate(s.immu.tlb, true, InstructionMmu, a, sm, write) == Missed(ItlbMiss)
  {
  }

  // ---------------------------------------------------------------- loads

  /** The number that the latest bytes from phy on make, the first one counting most. */
  function LatestNumber(mem: seq<uint8>, ops: seq<StoreOp>, width: nat, phy: nat): nat
    requires phy + width <= |mem| && forall op <- ops :: ValidStore(op, |mem|)
    decreases width
  {
    if width == 0 then 0
    else LatestNumber(mem, ops, width - 1, phy) * 0x100 + LatestByte(mem, ops, phy + width - 1)
  }

  lemma NumberIsValue(mem: seq<uint8>, ops: seq<StoreOp>, width: nat, phy: nat)
    requires width in {1, 2, 4} && phy + width <= |mem| && forall op <- ops :: ValidStore(op, |mem|)
    ensures LatestNumber(mem, ops, width, phy) == LatestValue(mem, ops, width, phy)
  {
    hide LatestByte;
    assert LatestNumber(mem, ops, 0, phy) == 0;
    assert LatestNumber(mem, ops, 1, phy) == LatestByte(mem, ops, phy);
    if width > 1 {
      assert LatestNumber(mem, ops, 2, phy) == LatestNumber(mem, ops, 1, phy) * 0x100 + LatestByte(mem, ops, phy + 1);
    }
    if width > 2 {
      assert LatestNumber(mem, ops, 3, phy) == LatestNumber(mem, ops, 2, phy) * 0x100 + LatestByte(mem, ops, phy + 2);
      assert LatestNumber(mem, ops, 4, phy) == LatestNumber(mem, ops, 3, phy) * 0x100 + LatestByte(mem, ops, phy + 3);
    }
  }

  /** A load instruction whose access gives the value v. */
  lemma LoadInstrLeaves(m: Machine, load: LoadKind, d: nat, ea: uint32, v: uint32)
    requires m.Valid() && d < GPRS && m.dmmu.Load(m.bus, load.Width(), ea, m.r.Supervisor()) == Value(v, m.bus)
    requires load.Lbz? || load.Lbs? ==> v < 0x100
    requires load.Lhz? || load.Lhs? ==> v < 0x1_0000
    ensures m.LoadInstr(load, d, ea).Continue?
    ensures var s := m.LoadInstr(load, d, ea).s;
            Completed(m, m.LoadInstr(load, d, ea), s) && OnlyGpr(m, d, s) && Loaded(load, v, s.r.gpr[d])
  {
    ExtendExactly(load, v, load.Extend(v));
    AfterLoadKeeps(m.dmmu, load.Width(), ea, m.r.Supervisor());
    var n := m.(dmmu := m.dmmu.AfterLoad(load.Width(), ea, m.r.Supervisor()));
    FinishLeaves(n, d, load.Extend(v));
    hide MmuState.Load, MmuState.AfterLoad, LoadKind.Extend, Loaded, Machine.Finish;
  }

  lemma AfterLoadKeeps(u: MmuState, width: nat, ea: uint32, sm: bool)
    requires u.Valid()
    ensures u.AfterLoad(width, ea, sm) == u.(cache := u.AfterLoad(width, ea, sm).cache)
  {
    hide PageOf, MmuState.Map;
  }

  lemma NumberBound(mem: seq<uint8>, ops: seq<StoreOp>, width: nat, phy: nat)
    requires width in {1, 2, 4} && phy + width <= |mem| && forall op <- ops :: ValidStore(op, |mem|)
    ensures LatestValue(mem, ops, 1, phy) < 0x100 && (width == 2 ==> LatestValue(mem, ops, 2, phy) < 0x1_0000)
  {
    hide LatestByte;
  }

  /** A load from RAM through a readable mapping, its page cache used or not, after any run of
      stores through any mappings: the register gets the latest bytes at the physical address, as
      many as the instruction names, extended as it says. */
  lemma LoadLeaves(m: Machine, x: Instr, before: BusState, es: seq<VirtualStore>, width: nat, ea: uint32, phy: uint32)
    requires m.Valid() && Decoded(x) && x.Load? && CacheSound(m.dmmu, m.r.Supervisor())
    requires before.Valid() && (forall e <- es :: e.ToRam()) && m.bus == StoreAll(before, es)
    requires width == if x.load.Lwz? then 4 else if x.load.Lhz? || x.load.Lhs? then 2 else 1
    requires ea == (m.r.gpr[x.a] + x.i) % 0x1_0000_0000 && ea % width == 0
    requires m.dmmu.Map(ea, m.r.Supervisor(), false) == Mapped(phy) && phy < RAM_SIZE
    ensures |before.mem| == RAM_SIZE && phy + width <= RAM_SIZE && m.Exec(x).Continue?
    ensures var s := m.Exec(x).s;
            && Completed(m, m.Exec(x), s) && OnlyGpr(m, x.d, s)
            && var v := LatestNumber(before.mem, Physicals(es), width, phy);
               v < 0x1_0000_0000 && Loaded(x.load, v, s.r.gpr[x.d])
  {
    LoadReadsLatest(before, es, m.dmmu, m.r.Supervisor(), width, ea, phy);
    NumberIsValue(before.mem, Physicals(es), width, phy);
    NumberBound(before.mem, Physicals(es), width, phy);
    LoadInstrLeaves(m, x.load, x.d, ea, LatestValue(before.mem, Physicals(es), width, phy));
    LoadExec(m, x);
    hide LatestNumber, LatestValue, StoreAll, Physicals, CacheSound, MmuState.Map, MmuState.Load, Completed, OnlyGpr,
         Loaded, Machine.LoadInstr, Machine.Exec, Decoded;
  }

  lemma LoadExec(m: Machine, x: Instr)
    requires m.Valid() && Decoded(x) && x.Load?
    ensures m.Exec(x) == m.LoadInstr(x.load, x.d, Wrap(m.r.gpr[x.a] + x.i))
  {
    hide Machine.LoadInstr;
  }

  /** A byte load from the serial device gives what the register there reads. */
  lemma SerialLoadLeaves(m: Machine, x: Instr, ea: uint32, phy: uint32)
    requires m.Valid() && Decoded(x) && x.Load? && (x.load.Lbz? || x.load.Lbs?)
    requires ea == (m.r.gpr[x.a] + x.i) % 0x1_0000_0000
    requires m.dmmu.Map(ea, m.r.Supervisor(), false) == Mapped(phy) && 0x9000_0000 <= phy <= 0x9000_0100
    ensures m.Exec(x).Continue?
    ensures var s := m.Exec(x).s;
            var (u, v) := m.bus.uart.Load(phy - 0x9000_0000);
            && Completed(m, m.Exec(x), s) && s.bus == m.bus.(uart := u) && s.r == m.r.(gpr := s.r.gpr)
            && |s.r.gpr| == 32 && Loaded(x.load, v, s.r.gpr[x.d])
            && forall k :: 0 <= k < 32 && k != x.d ==> s.r.gpr[k] == m.r.gpr[k]
  {
    var (u, v) := m.bus.uart.Load(phy - 0x9000_0000);
    LoadExec(m, x);
    ExtendExactly(x.load, v, x.load.Extend(v));
    AfterLoadKeeps(m.dmmu, 1, ea, m.r.Supervisor());
    SerialAccess(m, ea, phy);
    hide Machine.Exec, MmuState.Load, MmuState.AfterLoad, MmuState.Map, UartState.Load, LoadKind.Extend, Loaded,
         Decoded;
    var n := m.(dmmu := m.dmmu.AfterLoad(1, ea, m.r.Supervisor()), bus := m.bus.(uart := u));
    FinishLeaves(n, x.d, x.load.Extend(v));
    hide Machine.Finish;
  }

  lemma SerialAccess(m: Machine, ea: uint32, phy: uint32)
    requires m.Valid()
    requires m.dmmu.Map(ea, m.r.Supervisor(), false) == Mapped(phy) && 0x9000_0000 <= phy <= 0x9000_0100
    ensures var (u, v) := m.bus.uart.Load(phy - 0x9000_0000);
            m.dmmu.Load(m.bus, 1, ea, m.r.Supervisor()) == Value(v, m.bus.(uart := u))
  {
    hide MmuState.Map, UartState.Load;
  }

  // ---------------------------------------------------------------- stores

  /** A store to RAM: the bytes of the register, the most significant first, as many as the
      instruction names, and no other byte. */
  lemma StoreLeaves(m: Machine, x: Instr, ea: uint32, phy: uint32)
    requires m.Valid() && Decoded(x) && x.Store?
    requires ea == (m.r.gpr[x.a] + x.i) % 0x1_0000_0000 && ea % x.width == 0
    requires m.dmmu.Map(ea, m.r.Supervisor(), true) == Mapped(phy) && phy < RAM_SIZE
    ensures phy + x.width <= RAM_SIZE && m.Exec(x).Continue?
    ensures var s := m.Exec(x).s;
            && Completed(m, m.Exec(x), s) && s.r == m.r && s.bus.uart == m.bus.uart
            && |s.bus.mem| == |m.bus.mem| == RAM_SIZE
            && forall p :: 0 <= p < RAM_SIZE ==>
                 s.bus.mem[p] == if phy <= p < phy + x.width
                                 then m.r.gpr[x.b] / Pow2(8 * (phy + x.width - 1 - p)) % 0x100
                                 else m.bus.mem[p]
  {
    var e := VirtualStore(m.dmmu, m.r.Supervisor(), x.width, ea, m.r.gpr[x.b]);
    StoresPhysically(m.bus, e);
    StoreExec(m, x);
    hide Machine.Exec, MmuState.Store, MmuState.AfterStore, MmuState.Map, Put, Pow2, VirtualStore.ToRam;
    assert e.Physical() == StoreOp(x.width, phy, m.r.gpr[x.b]);
    forall p | 0 <= p < RAM_SIZE
      ensures Put(m.bus.mem, e.Physical())[p]
              == if phy <= p < phy + x.width then m.r.gpr[x.b] / Pow2(8 * (phy + x.width - 1 - p)) % 0x100
                 else m.bus.mem[p]
    {
      PutByte(m.bus.mem, e.Physical(), p);
    }
  }

  lemma StoreExec(m: Machine, x: Instr)
    requires m.Valid() && Decoded(x) && x.Store?
    ensures m.Exec(x) == m.StoreInstr(x.width, Wrap(m.r.gpr[x.a] + x.i), m.r.gpr[x.b])
  {
    hide Machine.StoreInstr;
  }

  /** A byte store to the serial device stores the low byte of the register there. */
  lemma SerialStoreLeaves(m: Machine, x: Instr, ea: uint32, phy: uint32)
    requires m.Valid() && Decoded(x) && x.Store? && x.width == 1
    requires ea == (m.r.gpr[x.a] + x.i) % 0x1_0000_0000
    requires m.dmmu.Map(ea, m.r.Supervisor(), true) == Mapped(phy) && 0x9000_0000 <= phy <= 0x9000_0100
    ensures m.Exec(x).Continue?
    ensures var s := m.Exec(x).s;
            && Completed(m, m.Exec(x), s) && s.r == m.r
            && s.bus == m.bus.(uart := m.bus.uart.Store(phy - 0x9000_0000, m.r.gpr[x.b] % 0x100))
  {
    StoreExec(m, x);
    hide Machine.Exec, MmuState.Map, MmuState.AfterStore, UartState.Store;
  }
}
