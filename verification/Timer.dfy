/** The tick timer (simctty/cpu.cc): exactly when it matches and how often, despite the 32-bit
    wrap of its counter, and that a whole run of the processor ticks it the same way. */
module Timer {
  import opened Words
  import opened Translation
  import opened Isa
  import opened Registers
  import opened Machine
  import opened Exceptions
  import opened Runs

  function Ticks(r: Regs, n: nat): Regs {
    if n == 0 then r else Ticks(r, n - 1).Ticked()
  }

  /** How many of the first n ticks match. */
  function Matches(r: Regs, n: nat): nat {
    if n == 0 then 0 else Matches(r, n - 1) + if Ticks(r, n).TimerMatches() then 1 else 0
  }

  /** Mode 3 with interrupts enabled: the timer runs. */
  predicate Armed(r: Regs) { r.ttmr / 0x4000_0000 == 3 && Bit(r.ttmr, 0x2000_0000) }

  // ---------------------------------------------------------------- arithmetic of the counter

  lemma PendingOnly(t: uint32)
    ensures WithPending(t) % TIMER_PERIOD == t % TIMER_PERIOD && WithPending(t) / 0x2000_0000 == t / 0x2000_0000
    ensures WithPending(t) / 0x4000_0000 == t / 0x4000_0000 && Bit(WithPending(t), TIMER_PENDING)
  {
    var q, p, l := t / 0x2000_0000, t / TIMER_PENDING % 2, t % TIMER_PERIOD;
    assert t == 0x2000_0000 * q + TIMER_PERIOD * p + l;
    var w := WithPending(t);
    assert w == 0x2000_0000 * q + TIMER_PERIOD + l;
    QuotientUnique(w, TIMER_PERIOD, 2 * q + 1, l);
    QuotientUnique(w, 0x2000_0000, q, TIMER_PERIOD + l);
  }

  lemma WrapModPeriod(x: nat)
    ensures Wrap(x) % TIMER_PERIOD == x % TIMER_PERIOD
  {
    var q, w := x / 0x1_0000_0000, x % 0x1_0000_0000;
    QuotientUnique(x, TIMER_PERIOD, 16 * q + w / TIMER_PERIOD, w % TIMER_PERIOD);
  }

  lemma WrapStep(x: nat)
    ensures Wrap(Wrap(x) + 1) == Wrap(x + 1)
  {
  }

  /** After n ticks the counter has advanced by n modulo 2^32; the mode, enable and period
      fields, and every register outside the timer, are as they were. */
  lemma {:induction false} AfterTicks(r: Regs, n: nat)
    ensures var t := Ticks(r, n);
            && t == r.(ttmr := t.ttmr, ttcr := Wrap(r.ttcr + n))
            && t.ttmr % TIMER_PERIOD == r.ttmr % TIMER_PERIOD && t.ttmr / 0x2000_0000 == r.ttmr / 0x2000_0000
            && t.ttmr / 0x4000_0000 == r.ttmr / 0x4000_0000
  {
    if n == 0 {
      assert Wrap(r.ttcr) == r.ttcr;
    } else {
      AfterTicks(r, n - 1);
      WrapStep(r.ttcr + n - 1);
      PendingOnly(Ticks(r, n - 1).ttmr);
      hide Wrap, WithPending, Bit;
    }
  }

  /** An armed timer matches at a tick exactly if the counter meets the period there. */
  lemma MatchAt(r: Regs, n: nat)
    requires Armed(r)
    ensures Ticks(r, n).TimerMatches() <==> (r.ttcr + n) % TIMER_PERIOD == r.ttmr % TIMER_PERIOD
  {
    AfterTicks(r, n);
    WrapModPeriod(r.ttcr + n);
    hide Wrap;
  }

  /** Ticks to the first match. */
  function FirstMatch(r: Regs): (k: nat)
    ensures 0 < k <= TIMER_PERIOD
  {
    (r.ttmr - r.ttcr - 1) % TIMER_PERIOD + 1
  }

  lemma PeriodDistance(c: int, p: int, k: nat)
    requires 0 < k <= TIMER_PERIOD
    ensures (c + k) % TIMER_PERIOD == p % TIMER_PERIOD <==> k == (p - c - 1) % TIMER_PERIOD + 1
  {
    var d := (p - c - 1) % TIMER_PERIOD + 1;
    var q := (p - c - 1) / TIMER_PERIOD;
    assert p == c + d + TIMER_PERIOD * q;
    ModShift(c + d, q);
    if k != d { ModDistinct(c + d, k - d); }
  }

  lemma ModShift(x: int, q: int)
    ensures (x + TIMER_PERIOD * q) % TIMER_PERIOD == x % TIMER_PERIOD
  {
    QuotientUnique(x + TIMER_PERIOD * q, TIMER_PERIOD, x / TIMER_PERIOD + q, x % TIMER_PERIOD);
  }

  lemma ModDistinct(x: int, e: int)
    requires 0 != e && -TIMER_PERIOD < e < TIMER_PERIOD
    ensures (x + e) % TIMER_PERIOD != x % TIMER_PERIOD
  {
    var q, l := x / TIMER_PERIOD, x % TIMER_PERIOD;
    if 0 <= l + e < TIMER_PERIOD { QuotientUnique(x + e, TIMER_PERIOD, q, l + e); }
    else if l + e < 0 { QuotientUnique(x + e, TIMER_PERIOD, q - 1, l + e + TIMER_PERIOD); }
    else { QuotientUnique(x + e, TIMER_PERIOD, q + 1, l + e - TIMER_PERIOD); }
  }

  /** The first match comes after exactly FirstMatch ticks, whatever the counter held. */
  lemma FirstMatchExact(r: Regs, k: nat)
    requires Armed(r) && 0 < k <= FirstMatch(r)
    ensures Ticks(r, k).TimerMatches() <==> k == FirstMatch(r)
  {
    MatchAt(r, k);
    PeriodDistance(r.ttcr, r.ttmr, k);
  }

  /** The number of matches in n ticks: one per whole period, counted from the phase the
      counter starts in. */
  lemma {:induction false} MatchCount(r: Regs, n: nat)
    requires Armed(r)
    ensures Matches(r, n) == ((r.ttcr - r.ttmr) % TIMER_PERIOD + n) / TIMER_PERIOD
  {
    var phase := (r.ttcr - r.ttmr) % TIMER_PERIOD;
    if n > 0 {
      MatchCount(r, n - 1);
      MatchAt(r, n);
      CountStep(r.ttcr, r.ttmr, n);
      hide Armed, Regs.TimerMatches;
    }
  }

  lemma CountStep(c: int, p: int, n: nat)
    requires n > 0
    ensures var phase := (c - p) % TIMER_PERIOD;
            (phase + n) / TIMER_PERIOD
            == (phase + n - 1) / TIMER_PERIOD + if (c + n) % TIMER_PERIOD == p % TIMER_PERIOD then 1 else 0
  {
    var phase, z := (c - p) % TIMER_PERIOD, (c - p) / TIMER_PERIOD;
    assert c == p + phase + TIMER_PERIOD * z;
    var y := phase + n - 1;
    var q, l := y / TIMER_PERIOD, y % TIMER_PERIOD;
    assert c + n == p + l + 1 + TIMER_PERIOD * (q + z);
    ModShift(p + l + 1, q + z);
    if l + 1 == TIMER_PERIOD {
      QuotientUnique(y + 1, TIMER_PERIOD, q + 1, 0);
      ModShift(p, 1);
    } else {
      QuotientUnique(y + 1, TIMER_PERIOD, q, l + 1);
      ModDistinct(p, l + 1);
    }
  }

  /** The pending bit is set by the first match and, nothing writing it, stays. */
  lemma {:induction false} PendingSticks(r: Regs, n: nat)
    ensures Bit(Ticks(r, n).ttmr, TIMER_PENDING) <==> Bit(r.ttmr, TIMER_PENDING) || Matches(r, n) > 0
  {
    if n > 0 {
      PendingSticks(r, n - 1);
      PendingOnly(Ticks(r, n - 1).ttmr);
      MatchUnmoved(Ticks(r, n - 1));
      hide Bit, WithPending, Regs.TimerMatches;
    }
  }

  /** Setting the pending bit does not undo the match that set it. */
  lemma MatchUnmoved(r: Regs)
    ensures var t := r.(ttcr := Wrap(r.ttcr + 1));
            r.Ticked().TimerMatches() == t.TimerMatches()
    ensures r.Ticked().ttmr == if r.(ttcr := Wrap(r.ttcr + 1)).TimerMatches() then WithPending(r.ttmr) else r.ttmr
  {
    PendingOnly(r.ttmr);
    hide Wrap, WithPending;
  }

  // ---------------------------------------------------------------- whole runs

  const TIMER_REGISTERS: set<Spr> := {TtmrReg, TtcrReg}

  predicate SameTimer(r: Regs, s: Regs) { r.ttmr == s.ttmr && r.ttcr == s.ttcr }

  lemma WriteSprKeepsTimer(m: Machine, address: uint16, v: uint32)
    requires m.Valid() && SprAt(address) != TtmrReg && SprAt(address) != TtcrReg
    ensures !m.WriteSprInstr(address, v).Stuck? ==> SameTimer(m.WriteSprInstr(address, v).s.r, m.r)
  {
    hide Bit, WithDsx, SprAt;
  }

  lemma MemoryKeepsTimer(m: Machine, load: LoadKind, width: nat, d: nat, ea: uint32, v: uint32)
    requires m.Valid() && d < GPRS && width in {1, 2, 4}
    ensures !m.LoadInstr(load, d, ea).Stuck? ==> SameTimer(m.LoadInstr(load, d, ea).s.r, m.r)
    ensures !m.StoreInstr(width, ea, v).Stuck? ==> SameTimer(m.StoreInstr(width, ea, v).s.r, m.r)
  {
    hide Bit, WithDsx, MmuState.Load, MmuState.Store, LoadKind.Extend, Wrap;
  }

  lemma OthersKeepTimer(m: Machine, x: Instr)
    requires m.Valid() && Decoded(x) && !x.Load? && !x.Store? && !x.Mtspr?
    ensures !m.Exec(x).Stuck? ==> SameTimer(m.Exec(x).s.r, m.r)
  {
    hide Bit, WithDsx, WithFlag, AluValue, Holds, ReadSpr, Wrap;
  }

  lemma ExecKeepsTimer(m: Machine, x: Instr)
    requires m.Valid() && Decoded(x) && !WritesSpr(m, x, TIMER_REGISTERS)
    ensures !m.Exec(x).Stuck? ==> SameTimer(m.Exec(x).s.r, m.r)
  {
    hide Machine.LoadInstr, Machine.StoreInstr, Machine.WriteSprInstr, SprAt, SprAddress, SameTimer;
    match x
    case Load(load, d, a, i) => MemoryKeepsTimer(m, load, 1, d, Wrap(m.r.gpr[a] + i), 0);
    case Store(width, a, b, i) => MemoryKeepsTimer(m, Lwz, width, 0, Wrap(m.r.gpr[a] + i), m.r.gpr[b]);
    case Mtspr(a, b, k) => WriteSprKeepsTimer(m, SprAddress(m.r.gpr[a], k), m.r.gpr[b]);
    case _ => OthersKeepTimer(m, x);
  }

  /** Every cycle ticks the timer once, also one that ends the run. */
  lemma CycleTicksOnce(m: Machine)
    requires m.Valid() && Untouched(m, 1, TIMER_REGISTERS) && !m.Cycle().Stuck?
    ensures SameTimer(m.Cycle().s.r, m.r.Ticked())
  {
    hide Machine.Fetch, Machine.Exec, Decode, Decoded, WritesSpr, Regs.Ticked, Regs.TickRaises, WithDsx, Bit;
    var t := m.(r := m.r.Ticked());
    TickedValid(m);
    FetchKeeps(t);
    if !t.r.TickRaises() && t.Fetch().Word? {
      DecodeDecoded(t.Fetch().w);
      ExecKeepsTimer(t.Fetch().s, Decode(t.Fetch().w));
    }
  }

  lemma SameTimerSelf(r: Regs)
    ensures SameTimer(r, r)
  {
  }

  lemma SameTicks(r: Regs, s: Regs)
    requires SameTimer(r, s)
    ensures SameTimer(r.Ticked(), s.Ticked())
  {
    hide Wrap, WithPending, Bit;
  }

  lemma {:induction false} TicksFromFront(r: Regs, n: nat)
    ensures Ticks(r, n + 1) == Ticks(r.Ticked(), n)
  {
    hide Regs.Ticked;
    if n > 0 { TicksFromFront(r, n - 1); }
  }

  lemma {:induction false} SameTicksN(r: Regs, s: Regs, n: nat)
    requires SameTimer(r, s)
    ensures SameTimer(Ticks(r, n), Ticks(s, n))
  {
    hide Regs.Ticked, SameTimer;
    if n > 0 {
      SameTicksN(r, s, n - 1);
      SameTicks(Ticks(r, n - 1), Ticks(s, n - 1));
    }
  }

  /** The cycles that a run of at most n really takes, the one that ends it included. */
  function Executed(m: Machine, n: nat): (k: nat)
    requires m.Valid()
    ensures k <= n
    decreases n
  {
    if n == 0 then 0
    else
      CycleValid(m);
      match m.Cycle()
      case Continue(m') => 1 + Executed(m', n - 1)
      case Stopped(_, _) => 1
      case Stuck => 0
  }

  /** Every run, whatever ends it and whatever its instructions do short of writing the timer,
      ticks it exactly once for each cycle it takes: n times if nothing ends it. */
  lemma {:induction false} RunTicks(m: Machine, n: nat)
    requires m.Valid() && Untouched(m, n, TIMER_REGISTERS) && !RunCycles(m, n).Stuck?
    ensures SameTimer(RunCycles(m, n).s.r, Ticks(m.r, Executed(m, n)))
    ensures RunCycles(m, n).Continue? ==> Executed(m, n) == n
    decreases n
  {
    hide Machine.Cycle, Machine.Valid, Untouched, Regs.Ticked, SameTimer;
    SameTimerSelf(m.r);
    if n > 0 {
      CycleValid(m);
      UntouchedNext(m, n, TIMER_REGISTERS);
      CycleTicksOnce(m);
      TicksFromFront(m.r, 0);
      if m.Cycle().Continue? {
        var m' := m.Cycle().s;
        var k := Executed(m', n - 1);
        RunTicks(m', n - 1);
        SameTicksN(m'.r, m.r.Ticked(), k);
        TicksFromFront(m.r, k);
        SameTimerTransitive(RunCycles(m, n).s.r, Ticks(m'.r, k), Ticks(m.r, k + 1));
      }
    }
  }

  lemma SameTimerTransitive(r: Regs, s: Regs, t: Regs)
    requires SameTimer(r, s) && SameTimer(s, t)
    ensures SameTimer(r, t)
  {
  }

  // ---------------------------------------------------------------- when the exception comes

  lemma SameMatch(r: Regs, s: Regs)
    requires SameTimer(r, s)
    ensures r.TimerMatches() == s.TimerMatches()
  {
  }

  /** After j cycles the next tick is the timer's tick j + 1. */
  lemma NextTick(m: Machine, j: nat, s: Machine)
    requires m.Valid() && Untouched(m, j, TIMER_REGISTERS) && RunCycles(m, j) == Continue(s)
    ensures s.r.Ticked().TickRaises() <==> Ticks(m.r, j + 1).TimerMatches() && Bit(s.r.sr, TEE)
  {
    RunTicks(m, j);
    assert s.r.Ticked().sr == s.r.sr;
    hide RunCycles, Machine.Valid, Untouched, Executed, SameTimer, Regs.Ticked, Regs.TimerMatches, Bit;
    SameTicks(s.r, Ticks(m.r, j));
    SameMatch(s.r.Ticked(), Ticks(m.r, j + 1));
  }

  /** In a run with the timer armed at its start, the tick after j cycles raises the exception
      exactly if the counter meets the period there and TEE is set by then; up to the first
      match, exactly at the first match. */
  lemma TickRaisesExactly(m: Machine, j: nat, s: Machine)
    requires m.Valid() && Armed(m.r) && Untouched(m, j, TIMER_REGISTERS) && RunCycles(m, j) == Continue(s)
    ensures s.r.Ticked().TickRaises() <==>
              Bit(s.r.sr, TEE) && (m.r.ttcr + j + 1) % TIMER_PERIOD == m.r.ttmr % TIMER_PERIOD
    ensures j < FirstMatch(m.r) ==> (s.r.Ticked().TickRaises() <==> Bit(s.r.sr, TEE) && j + 1 == FirstMatch(m.r))
  {
    hide RunCycles, Machine.Valid, Untouched, Armed, FirstMatch, Regs.Ticked, Regs.TickRaises,
         Regs.TimerMatches, Ticks, Bit;
    NextTick(m, j, s);
    MatchAt(m.r, j + 1);
    if j < FirstMatch(m.r) { FirstMatchExact(m.r, j + 1); }
  }

  lemma RaisedCycle(s: Machine, n: nat)
    requires s.Valid() && s.r.Ticked().TickRaises() && n > 0
    ensures RunCycles(s, n) == Stopped(s.(r := s.r.Ticked()).Throw(TickTimerInterrupt, 0), true)
  {
    hide Machine.Valid, Machine.Fetch, Regs.Ticked, Regs.TickRaises, Machine.Throw;
  }

  /** A run that reaches its first match, after k ticks, with TEE set ends there, and not before,
      with the tick exception, taken before the instruction of that cycle. */
  lemma TickExceptionAtMatch(m: Machine, k: nat, n: nat, s: Machine)
    requires m.Valid() && Armed(m.r) && k == FirstMatch(m.r) && k <= n && Untouched(m, k - 1, TIMER_REGISTERS)
    requires RunCycles(m, k - 1) == Continue(s) && Bit(s.r.sr, TEE)
    ensures RunCycles(m, n) == Stopped(s.(r := s.r.Ticked()).Throw(TickTimerInterrupt, 0), true)
  {
    hide *;
    TickRaisesExactly(m, k - 1, s);
    RunSplit(m, k - 1, n - (k - 1));
    RaisedCycle(s, n - (k - 1));
  }

  // ---------------------------------------------------------------- across the runs of a session

  /** The cycles taken by all runs of a session. */
  function Elapsed(m: Machine, acts: seq<HostAction>): nat
    requires m.Valid()
    decreases |acts|
  {
    if acts == [] then 0
    else
      CheckValid(m);
      (if acts[0].RunFor? then Executed(m.CheckInterrupts(), acts[0].n) else 0) +
      if Act(m, acts[0]).Stuck? then 0 else Elapsed(Act(m, acts[0]).s, acts[1..])
  }

  /** No run of the session writes a timer register and no image is loaded. */
  predicate UntouchedSession(m: Machine, acts: seq<HostAction>)
    requires m.Valid()
    decreases |acts|
  {
    CheckValid(m);
    acts != [] ==>
      && !acts[0].LoadImage?
      && (acts[0].RunFor? ==> Untouched(m.CheckInterrupts(), acts[0].n, TIMER_REGISTERS))
      && (!Act(m, acts[0]).Stuck? ==> UntouchedSession(Act(m, acts[0]).s, acts[1..]))
  }

  lemma {:induction false} TicksAdd(r: Regs, a: nat, b: nat)
    ensures Ticks(Ticks(r, a), b) == Ticks(r, a + b)
  {
    hide Regs.Ticked;
    if b > 0 { TicksAdd(r, a, b - 1); }
  }

  lemma SampleKeepsTimer(m: Machine)
    ensures SameTimer(m.CheckInterrupts().r, m.r)
  {
    hide Bit, Bitwise32, WithDsx;
  }

  lemma ActTicks(m: Machine, act: HostAction)
    requires m.Valid() && UntouchedSession(m, [act]) && !Act(m, act).Stuck?
    ensures SameTimer(Act(m, act).s.r, Ticks(m.r, Elapsed(m, [act])))
  {
    hide Machine.CheckInterrupts, Machine.Valid, RunCycles, Untouched, Executed, Regs.Ticked;
    CheckValid(m);
    if act.RunFor? {
      var c := m.CheckInterrupts();
      SampleKeepsTimer(m);
      RunTicks(c, act.n);
      SameTicksN(c.r, m.r, Executed(c, act.n));
    }
  }

  lemma FirstAct(m: Machine, acts: seq<HostAction>)
    requires m.Valid() && acts != [] && UntouchedSession(m, acts) && !Act(m, acts[0]).Stuck?
    ensures UntouchedSession(m, [acts[0]]) && UntouchedSession(Act(m, acts[0]).s, acts[1..])
    ensures Elapsed(m, acts) == Elapsed(m, [acts[0]]) + Elapsed(Act(m, acts[0]).s, acts[1..])
  {
    hide Act, Machine.Valid, Machine.CheckInterrupts, Executed, Untouched;
  }

  /** Over every session that leaves the timer alone, however its runs end, the timer has ticked
      once for every cycle taken, and is pending exactly if it was or some tick matched. */
  lemma {:induction false} SessionTicks(m: Machine, acts: seq<HostAction>)
    requires m.Valid() && UntouchedSession(m, acts) && !Session(m, acts).Stuck?
    ensures SameTimer(Session(m, acts).s.r, Ticks(m.r, Elapsed(m, acts)))
    ensures Bit(Session(m, acts).s.r.ttmr, TIMER_PENDING) <==>
              Bit(m.r.ttmr, TIMER_PENDING) || Matches(m.r, Elapsed(m, acts)) > 0
    decreases |acts|
  {
    hide *;
    if acts == [] {
      NothingTicks(m);
    } else {
      SessionUnfolds(m, acts);
      var s := Act(m, acts[0]).s;
      var a, b := Elapsed(m, [acts[0]]), Elapsed(s, acts[1..]);
      FirstAct(m, acts);
      ActTicks(m, acts[0]);
      SessionTicks(s, acts[1..]);
      SameTicksN(s.r, Ticks(m.r, a), b);
      TicksAdd(m.r, a, b);
      SameTimerTransitive(Session(m, acts).s.r, Ticks(s.r, b), Ticks(m.r, a + b));
    }
    PendingSticks(m.r, Elapsed(m, acts));
    SamePending(Session(m, acts).s.r, Ticks(m.r, Elapsed(m, acts)));
  }

  lemma NothingTicks(m: Machine)
    requires m.Valid()
    ensures Session(m, []) == Continue(m) && Elapsed(m, []) == 0 && Ticks(m.r, 0) == m.r && SameTimer(m.r, m.r)
  {
    hide Machine.Valid;
  }

  lemma SessionUnfolds(m: Machine, acts: seq<HostAction>)
    requires m.Valid() && acts != [] && !Session(m, acts).Stuck?
    ensures !Act(m, acts[0]).Stuck? && Act(m, acts[0]).s.Valid()
    ensures Session(m, acts) == Session(Act(m, acts[0]).s, acts[1..])
  {
    hide Machine.Valid, Act;
  }

  lemma SamePending(r: Regs, s: Regs)
    requires SameTimer(r, s)
    ensures Bit(r.ttmr, TIMER_PENDING) == Bit(s.ttmr, TIMER_PENDING)
  {
  }
}
