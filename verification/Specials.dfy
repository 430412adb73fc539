/** The special registers by their addresses (OpenRISC 1000 Architecture Manual 1.0, chapter 4):
    what a read gives after a write, what a handler reads after an exception, and what the writes
    that arm the timer, enable translation and unmask interrupts lead to. */
module Specials {
  import opened Words
  import opened Exceptions
  import opened Uart
  import opened Translation
  import opened Isa
  import opened Registers
  import opened Machine
  import opened Restart
  import opened Timer
  import opened Meaning
  import opened Permissions

  const SR_ADDRESS: uint16 := 17
  const EPCR_ADDRESS: uint16 := 32
  const EEAR_ADDRESS: uint16 := 48
  const ESR_ADDRESS: uint16 := 64
  const DMMU_GROUP: uint16 := 0x800
  const IMMU_GROUP: uint16 := 0x1000
  const PICMR_ADDRESS: uint16 := 0x4800
  const PICSR_ADDRESS: uint16 := 0x4802
  const TTMR_ADDRESS: uint16 := 0x5000
  const TTCR_ADDRESS: uint16 := 0x5001

  /** A register of the group that an MMU has: its control register, 128 match registers, 128
      translate registers. */
  predicate MmuRegister(address: uint16, group: uint16) {
    var index := address - group;
    index == 0 || 512 <= index < 768
  }

  /** The registers that keep what is written to them. */
  predicate Writable(address: uint16) {
    || address == SR_ADDRESS || address == EPCR_ADDRESS || address == EEAR_ADDRESS || address == ESR_ADDRESS
    || MmuRegister(address, DMMU_GROUP) || MmuRegister(address, IMMU_GROUP)
    || address == PICMR_ADDRESS || address == PICSR_ADDRESS || address == TTMR_ADDRESS || address == TTCR_ADDRESS
  }

  /** The two MMU groups have 2048 addresses each; those without a register end the process. */
  predicate Nowhere(address: uint16) {
    0x800 <= address < 0x1800 && !MmuRegister(address, DMMU_GROUP) && !MmuRegister(address, IMMU_GROUP)
  }

  function Read(m: Machine, address: uint16): Option<uint32>
    requires m.Valid()
  {
    ReadSpr(m.r, m.immu.tlb, m.dmmu.tlb, address)
  }

  /** What is written is read back, unless that was a zero to SR, after which everything reads zero. */
  lemma WriteThenRead(m: Machine, address: uint16, v: uint32)
    requires m.Valid() && Writable(address)
    ensures var w := m.WriteSpr(address, v);
            && w.Some? && w.value.Valid()
            && (w.value.r.sr != 0 ==> Read(w.value, address) == Some(v))
  {
    WriteSprValid(m, address, v);
    hide Bit;
  }

  lemma AddressesDistinct(address: uint16, other: uint16)
    requires SprAt(address) == SprAt(other) && SprAt(address) != NoReg
    ensures address == other
  {
    var g, h := address / 0x800, other / 0x800;
    assert address == 0x800 * g + address % 0x800 && other == 0x800 * h + other % 0x800;
  }

  lemma TlbOthersKept(t: Tlb, index: nat, v: uint32, other: nat)
    requires t.Valid() && t.Write(index, v).Some? && other != index
    ensures t.Write(index, v).value.Read(other) == t.Read(other)
  {
  }

  lemma MmuWriteKeepsOthers(m: Machine, address: uint16, v: uint32, other: uint16)
    requires m.Valid() && m.WriteSpr(address, v).Some? && SprAt(address) != SprAt(other) && m.r.sr != 0
    requires SprAt(address).DtlbReg? || SprAt(address).ItlbReg?
    ensures var w := m.WriteSpr(address, v).value;
            w.Valid() && Read(w, other) == Read(m, other)
  {
    WriteSprValid(m, address, v);
    var a, o := SprAt(address), SprAt(other);
    if a.DtlbReg? && o.DtlbReg? { TlbOthersKept(m.dmmu.tlb, a.index, v, o.index); }
    if a.ItlbReg? && o.ItlbReg? { TlbOthersKept(m.immu.tlb, a.index, v, o.index); }
    hide SprAt, Bit, Tlb.Read, Tlb.Write, Machine.Valid, Config;
  }

  lemma CpuWriteKeepsOthers(m: Machine, address: uint16, v: uint32, other: uint16)
    requires m.Valid() && m.WriteSpr(address, v).Some? && SprAt(address) != SprAt(other) && m.r.sr != 0
    requires !SprAt(address).DtlbReg? && !SprAt(address).ItlbReg?
    ensures var w := m.WriteSpr(address, v).value;
            w.Valid() && (w.r.sr != 0 ==> Read(w, other) == Read(m, other))
  {
    WriteSprValid(m, address, v);
    hide SprAt, Bit, Tlb.Read, Tlb.Write, Machine.Valid, Config;
  }

  lemma IgnoredWrite(m: Machine, address: uint16, v: uint32)
    requires m.Valid() && SprAt(address) == NoReg
    ensures m.WriteSpr(address, v) == Some(m)
  {
    hide SprAt;
  }

  /** No write disturbs what any other address reads. */
  lemma OthersKept(m: Machine, address: uint16, v: uint32, other: uint16)
    requires m.Valid() && m.WriteSpr(address, v).Some? && other != address
    ensures var w := m.WriteSpr(address, v).value;
            w.Valid() && (m.r.sr != 0 && w.r.sr != 0 ==> Read(w, other) == Read(m, other))
  {
    WriteSprValid(m, address, v);
    hide SprAt, Machine.WriteSpr, ReadSpr, Machine.Valid;
    if SprAt(address) == NoReg {
      IgnoredWrite(m, address, v);
    } else if SprAt(address) == SprAt(other) {
      AddressesDistinct(address, other);
    } else if m.r.sr != 0 {
      if SprAt(address).DtlbReg? || SprAt(address).ItlbReg? {
        MmuWriteKeepsOthers(m, address, v, other);
      } else {
        CpuWriteKeepsOthers(m, address, v, other);
      }
    }
  }

  /** A write anywhere else changes nothing, or ends the process. */
  lemma UnwritableIgnored(m: Machine, address: uint16, v: uint32)
    requires m.Valid() && !Writable(address)
    ensures m.WriteSpr(address, v) == if Nowhere(address) then None else Some(m)
  {
    hide Bit;
  }

  /** With SR zero everything reads zero; otherwise the configuration registers read what the
      simulated processor has, and any other register that cannot be written reads zero. */
  lemma UnwritableReads(m: Machine, address: uint16)
    requires m.Valid() && !Writable(address) && m.r.sr != 0
    ensures Read(m, address)
            == if Nowhere(address) then None
               else if address == 0 then Some(0x1000_0040)
               else if address == 1 then Some(0x619)
               else if address == 2 then Some(0x820)
               else if address == 3 || address == 4 then Some(0x18)
               else if address == 10 then Some(0x100_0000)
               else Some(0)
  {
  }

  lemma ZeroSrReads(m: Machine, address: uint16)
    requires m.Valid() && m.r.sr == 0
    ensures Read(m, address) == Some(0)
  {
  }

  // ---------------------------------------------------------------- at the instructions

  /** The address that l.mfspr and l.mtspr form: the bits of the register or those of the constant. */
  lemma AddressBits(base: uint32, k: uint16, j: nat)
    requires j < 16
    ensures BitAt(SprAddress(base, k), j) <==> BitAt(base, j) || BitAt(k, j)
  {
    BitwiseMeets(OrBits, base, k, j);
    LowHalfBit(Bitwise32(OrBits, base, k), j);
    hide Bitwise32, BitAt;
  }

  lemma LowHalfBit(x: uint32, j: nat)
    requires j < 16
    ensures BitAt(x % 0x1_0000, j) <==> BitAt(x, j)
  {
    Pow2Add(j, 15 - j);
    Pow2Half();
    BitOfRemainder(x, Pow2(j), Pow2(15 - j));
    hide Pow2;
  }

  lemma BitOfRemainder(x: nat, p: nat, h: nat)
    requires p * h == 0x8000
    ensures p > 0 && x % 0x1_0000 / p % 2 == x / p % 2
  {
    var q, l := x / 0x1_0000, x % 0x1_0000;
    MulAssoc(p, h, 2 * q);
    assert x == p * (h * (2 * q)) + l;
    assert l == p * (l / p) + l % p;
    assert p * (h * (2 * q) + l / p) == p * (h * (2 * q)) + p * (l / p);
    QuotientUnique(x, p, h * (2 * q) + l / p, l % p);
    assert h * (2 * q) == 2 * (h * q);
    EvenPlus(h * q, l / p);
  }

  lemma Pow2Half()
    ensures Pow2(15) == 0x8000
  {
    assert Pow2(5) == 32;
    Pow2Add(5, 5);
    Pow2Add(10, 5);
  }

  lemma ConstantAddress(base: uint32, k: uint16)
    requires base == 0
    ensures SprAddress(base, k) == k
  {
    Pow2Word();
    hide Pow2;
    ZeroOr(k, 32);
  }

  lemma {:induction false} ZeroOr(x: nat, n: nat)
    requires x < Pow2(n)
    ensures Bitwise(OrBits, 0, x, n) == x
  {
    if n > 0 { ZeroOr(x / 2, n - 1); }
  }

  /** l.mtspr to a writable register and then l.mfspr from it, with nothing in between: the value
      comes back, unless it cleared SR or the write let a due timer interrupt in. */
  lemma MtsprThenMfspr(m: Machine, w: Instr, r: Instr)
    requires m.Valid() && w.Mtspr? && Decoded(w) && r.Mfspr? && Decoded(r)
    requires SprAddress(m.r.gpr[w.a], w.k) == SprAddress(m.r.gpr[r.a], r.k) && Writable(SprAddress(m.r.gpr[w.a], w.k))
    ensures m.Exec(w).Continue? && m.Exec(w).s.Valid()
    ensures var s := m.Exec(w).s;
            var t := m.WriteSpr(SprAddress(m.r.gpr[w.a], w.k), m.r.gpr[w.b]);
            && t.Some?
            && (t.value.r.sr != 0 && !t.value.r.TimerDue() ==>
                 && s.Exec(r).Continue? && |s.Exec(r).s.r.gpr| == 32
                 && s.Exec(r).s.r.gpr[r.d] == m.r.gpr[w.b])
  {
    var address := SprAddress(m.r.gpr[w.a], w.k);
    WriteThenRead(m, address, m.r.gpr[w.b]);
    ExecValid(m, w);
    MtsprExec(m, w);
    WriteKeepsGprs(m, address, m.r.gpr[w.b]);
    MfsprExec(m.Exec(w).s, r);
    hide Machine.Exec, Machine.WriteSpr, SprAddress, Machine.Throw, Regs.TimerDue, Machine.Valid, Writable, ReadSpr;
  }

  lemma MtsprExec(m: Machine, w: Instr)
    requires m.Valid() && w.Mtspr? && Decoded(w)
    ensures m.Exec(w) == m.WriteSprInstr(SprAddress(m.r.gpr[w.a], w.k), m.r.gpr[w.b])
  {
    hide Machine.WriteSprInstr, SprAddress;
  }

  lemma MfsprExec(m: Machine, r: Instr)
    requires m.Valid() && r.Mfspr? && Decoded(r)
    ensures match Read(m, SprAddress(m.r.gpr[r.a], r.k))
            case None => m.Exec(r).Stuck?
            case Some(v) =>
              m.Exec(r).Continue? && m.Exec(r).s.r.Valid() && m.Exec(r).s.r.gpr == m.r.gpr[r.d := v]
  {
    hide ReadSpr, SprAddress, Wrap;
  }

  lemma WriteKeepsGprs(m: Machine, address: uint16, v: uint32)
    requires m.Valid() && m.WriteSpr(address, v).Some?
    ensures m.WriteSpr(address, v).value.r.gpr == m.r.gpr
  {
    hide SprAt, Bit;
  }

  // ---------------------------------------------------------------- after an exception

  /** A handler, after any exception: EPCR is where to restart, ESR the SR that was, EEAR the
      effective address of the exceptions that have one. */
  lemma HandlerReads(m: Machine, e: Exception, ea: uint32, t: Machine)
    requires m.Valid() && t.Valid() && Taken(m, e, ea, t)
    ensures Read(t, 32) == Some(if m.slot then (m.pc - 4) % 0x1_0000_0000 else m.pc)
    ensures !m.slot ==> Read(t, 64) == Some(m.r.sr)
    ensures m.slot ==> Read(t, 64) == Some(if m.r.sr / 0x2000 % 2 == 1 then m.r.sr else m.r.sr + 0x2000)
    ensures e !in {TickTimerInterrupt, ExternalInterrupt, SystemCall} ==> Read(t, 48) == Some(ea)
    ensures Read(t, 17) == Some(0x8001)
  {
    hide Machine.Valid, Vector;
  }

  /** The l.mfspr instructions of such a handler, through a register that holds zero. */
  lemma HandlerMoves(m: Machine, e: Exception, ea: uint32, t: Machine, a: nat, d: nat, k: uint16)
    requires m.Valid() && t.Valid() && Taken(m, e, ea, t) && a < 32 && d < 32 && t.r.gpr[a] == 0 && k in {32, 48, 64}
    ensures |t.r.gpr| == 32 && Decoded(Mfspr(d, a, k)) && t.Exec(Mfspr(d, a, k)).Continue?
    ensures var v := t.Exec(Mfspr(d, a, k)).s.r.gpr;
            && |v| == 32
            && (k == 32 ==> v[d] == if m.slot then (m.pc - 4) % 0x1_0000_0000 else m.pc)
            && (k == 64 && !m.slot ==> v[d] == m.r.sr)
            && (k == 48 && e !in {TickTimerInterrupt, ExternalInterrupt, SystemCall} ==> v[d] == ea)
  {
    HandlerReads(m, e, ea, t);
    EearReadable(t);
    ConstantAddress(t.r.gpr[a], k);
    MfsprMove(t, d, a, k);
    hide SprAddress, Machine.Exec, ReadSpr, Taken, Machine.Valid;
  }

  lemma EearReadable(t: Machine)
    requires t.Valid()
    ensures Read(t, 48).Some?
  {
  }

  lemma MfsprMove(t: Machine, d: nat, a: nat, k: uint16)
    requires t.Valid() && a < 32 && d < 32
    ensures |t.r.gpr| == 32 && Decoded(Mfspr(d, a, k))
    ensures match Read(t, SprAddress(t.r.gpr[a], k))
            case None => t.Exec(Mfspr(d, a, k)).Stuck?
            case Some(v) =>
              t.Exec(Mfspr(d, a, k)).Continue? && t.Exec(Mfspr(d, a, k)).s.r.gpr == t.r.gpr[d := v]
  {
    hide SprAddress, Machine.Exec, ReadSpr;
    MfsprExec(t, Mfspr(d, a, k));
  }

  /** Whatever exception the cycle from m takes. */
  lemma CycleHandlerReads(m: Machine)
    requires m.Valid() && CycleFault(m).Some? && !m.Cycle().Stuck?
    ensures m.Cycle().s.Valid()
    ensures Read(m.Cycle().s, 32) == Some(if m.slot then (m.pc - 4) % 0x1_0000_0000 else m.pc)
    ensures !m.slot ==> Read(m.Cycle().s, 64) == Some(m.r.sr)
    ensures CycleFault(m).value.0 !in {TickTimerInterrupt, ExternalInterrupt, SystemCall}
            ==> Read(m.Cycle().s, 48) == Some(CycleFault(m).value.1)
  {
    hide *;
    CycleValid(m);
    CycleFaultTaken(m);
    HandlerReads(m, CycleFault(m).value.0, CycleFault(m).value.1, m.Cycle().s);
  }

  // ---------------------------------------------------------------- what the writes lead to

  /** A word written at TTMR, then a count written at TTCR: from there the timer matches at a tick
      exactly if the word says mode 3 with interrupts enabled and the count then meets the period in
      it, modulo 2^28; the first match comes after as many ticks as stated. */
  lemma WritesArmTimer(m: Machine, t: uint32, c: uint32, k: nat)
    requires m.Valid()
    ensures m.WriteSpr(0x5000, t).Some? && m.WriteSpr(0x5000, t).value.Valid()
    ensures m.WriteSpr(0x5000, t).value.WriteSpr(0x5001, c).Some?
    ensures var r := m.WriteSpr(0x5000, t).value.WriteSpr(0x5001, c).value.r;
            var armed := t / 0x4000_0000 == 3 && t / 0x2000_0000 % 2 == 1;
            && (Ticks(r, k).TimerMatches() <==> armed && (c + k) % 0x1000_0000 == t % 0x1000_0000)
            && (0 < k <= (t - c - 1) % 0x1000_0000 + 1 ==>
                  (Ticks(r, k).TimerMatches() <==> armed && k == (t - c - 1) % 0x1000_0000 + 1))
  {
    hide Ticks, Regs.TimerMatches;
    WriteSprValid(m, 0x5000, t);
    var r := m.WriteSpr(0x5000, t).value.WriteSpr(0x5001, c).value.r;
    if Armed(r) {
      MatchAt(r, k);
      if 0 < k <= (t - c - 1) % 0x1000_0000 + 1 { FirstMatchExact(r, k); }
    } else {
      UnarmedNeverMatches(r, k);
    }
  }

  lemma UnarmedNeverMatches(r: Regs, k: nat)
    requires !Armed(r)
    ensures !Ticks(r, k).TimerMatches()
  {
    AfterTicks(r, k);
  }

  /** A write of SR: weight 0x40 turns fetch translation on, 0x20 data translation, and weight 1
      is the mode of every access that follows. */
  lemma SrWriteEnables(m: Machine, v: uint32, a: uint32, write: bool)
    requires m.Valid()
    ensures m.WriteSpr(17, v).Some? && m.WriteSpr(17, v).value.Valid()
    ensures var w := m.WriteSpr(17, v).value;
            && w.dmmu.Map(a, w.r.Supervisor(), write)
               == Translate(m.dmmu.tlb, v / 0x20 % 2 == 1, DataMmu, a, v % 2 == 1, write)
            && w.immu.Map(a, w.r.Supervisor(), write)
               == Translate(m.immu.tlb, v / 0x40 % 2 == 1, InstructionMmu, a, v % 2 == 1, write)
  {
    WriteSprValid(m, 17, v);
    hide Translate;
  }

  /** The tick exception: a match, with the bit of weight 2 set in SR. A pending one: the bit of
      weight 2^28 in TTMR, with the same bit of SR. */
  lemma TimerEnable(r: Regs)
    ensures r.TickRaises() <==> r.TimerMatches() && r.sr / 2 % 2 == 1
    ensures r.TimerDue() <==> r.ttmr / 0x1000_0000 % 2 == 1 && r.sr / 2 % 2 == 1
  {
  }

  /** What a read of PICSR shows of the lines after a sample: line 2, of weight 4, is the serial
      device's, and there is no other. */
  lemma SampleSees(m: Machine)
    requires m.Valid() && m.r.sr != 0
    ensures m.CheckInterrupts().Valid()
    ensures Read(m.CheckInterrupts(), 0x4802) == Some(if m.bus.uart.Asserted() then 4 else 0)
  {
    CheckValid(m);
    hide Bit, WithDsx, UartState.Asserted, Machine.Valid;
  }

  /** An interrupt is taken exactly if the bit of weight 4 is set in SR, a delivery is armed, and
      some line is both seen and unmasked. */
  lemma InterruptDueExactly(r: Regs)
    ensures r.InterruptDue()
            <==> r.sr / 4 % 2 == 1 && r.pending && exists j :: 0 <= j < 32 && BitAt(r.picsr, j) && BitAt(r.picmr, j)
  {
    var both := Bitwise32(AndBits, r.picsr, r.picmr);
    forall j | 0 <= j < 32
      ensures BitAt(both, j) <==> BitAt(r.picsr, j) && BitAt(r.picmr, j)
      ensures !BitAt(0, j)
    {
      BitwiseMeets(AndBits, r.picsr, r.picmr, j);
      ZeroBit(j);
    }
    hide Bitwise32, BitAt;
    if both != 0 && forall j :: 0 <= j < 32 ==> !BitAt(both, j) { WordBitsSame(both, 0); }
  }

  /** Writing a set's match and translate registers makes the entry of every page of the set: its
      tag is the first word written, its frame and permissions the second. */
  lemma WritesMakeEntry(m: Machine, a: uint32, mr: uint32, tr: uint32)
    requires m.Valid()
    ensures var way := a / 0x2000 % 64;
            && m.WriteSpr(0xa00 + way, mr).Some? && m.WriteSpr(0xa00 + way, mr).value.Valid()
            && var w := m.WriteSpr(0xa00 + way, mr).value.WriteSpr(0xa80 + way, tr);
               && w.Some? && w.value.dmmu.tlb.Valid()
               && (Tagged(w.value.dmmu.tlb, a) <==> mr % 2 == 1 && mr / 0x2000 == a / 0x2000)
               && EntryOf(w.value.dmmu.tlb, a) == tr
    ensures var way := a / 0x2000 % 64;
            && m.WriteSpr(0x1200 + way, mr).Some? && m.WriteSpr(0x1200 + way, mr).value.Valid()
            && var w := m.WriteSpr(0x1200 + way, mr).value.WriteSpr(0x1280 + way, tr);
               && w.Some? && w.value.immu.tlb.Valid()
               && (Tagged(w.value.immu.tlb, a) <==> mr % 2 == 1 && mr / 0x2000 == a / 0x2000)
               && EntryOf(w.value.immu.tlb, a) == tr
  {
    var way := a / 0x2000 % 64;
    WriteSprValid(m, 0xa00 + way, mr);
    WriteSprValid(m, 0x1200 + way, mr);
    EntryAddresses(way);
    hide SprAt, Bit;
  }

  lemma EntryAddresses(way: nat)
    requires way < 64
    ensures SprAt(0xa00 + way) == DtlbReg(512 + way) && SprAt(0xa80 + way) == DtlbReg(640 + way)
    ensures SprAt(0x1200 + way) == ItlbReg(512 + way) && SprAt(0x1280 + way) == ItlbReg(640 + way)
  {
  }
}
