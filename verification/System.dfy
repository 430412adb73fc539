/** The whole system (simctty/system.cc): image loading, whole or in chunks, and running. */
module System {
  import opened Words
  import opened Memory
  import opened Bus
  import opened Translation
  import opened Registers
  import opened Machine
  import opened Reference
  import opened Refinement
  import opened Runs
  import opened Cpu

  // ---------------------------------------------------------------- chunked loading

  /** RAM after LoadImage at an offset: a chunk that does not fit is refused. */
  function LoadAt(mem: seq<uint8>, data: seq<uint8>, offset: nat): (r: seq<uint8>)
    ensures |r| == |mem|
  {
    if offset + |data| <= |mem| then Overlay(mem, offset, data) else mem
  }

  /** RAM after the loop of LoadImageFile over the chunks read from a file. */
  function LoadChunks(mem: seq<uint8>, chunks: seq<seq<uint8>>, offset: nat): (r: seq<uint8>)
    ensures |r| == |mem|
    decreases |chunks|
  {
    if chunks == [] then mem
    else LoadChunks(LoadAt(mem, chunks[0], offset), chunks[1..], offset + |chunks[0]|)
  }

  lemma LoadRest(mem: seq<uint8>, rest: seq<seq<uint8>>, offset: nat)
    requires rest == []
    ensures LoadChunks(mem, rest, offset) == mem
  {
  }

  lemma LoadNext(mem: seq<uint8>, file: seq<seq<uint8>>, k: nat, offset: nat)
    requires k < |file|
    ensures LoadChunks(mem, file[k..], offset)
            == LoadChunks(LoadAt(mem, file[k], offset), file[k + 1..], offset + |file[k]|)
  {
    assert file[k..][1..] == file[k + 1..];
  }

  function Concat(chunks: seq<seq<uint8>>): seq<uint8> {
    if chunks == [] then [] else chunks[0] + Concat(chunks[1..])
  }

  /** The longest run of leading chunks that fits below the limit. */
  function Fitting(chunks: seq<seq<uint8>>, room: int): (n: nat)
    ensures n <= |chunks|
  {
    if chunks == [] || |chunks[0]| > room then 0 else 1 + Fitting(chunks[1..], room - |chunks[0]|)
  }

  lemma {:induction false} FittingConcat(chunks: seq<seq<uint8>>, room: nat)
    ensures |Concat(chunks[..Fitting(chunks, room)])| <= room
  {
    if chunks != [] && |chunks[0]| <= room {
      var n := Fitting(chunks[1..], room - |chunks[0]|);
      FittingConcat(chunks[1..], room - |chunks[0]|);
      assert chunks[..n + 1][1..] == chunks[1..][..n];
    }
  }

  /** If the whole file fits, every chunk does. */
  lemma {:induction false} FittingAll(chunks: seq<seq<uint8>>, room: nat)
    requires |Concat(chunks)| <= room
    ensures Fitting(chunks, room) == |chunks|
  {
    if chunks != [] { FittingAll(chunks[1..], room - |chunks[0]|); }
  }

  lemma ConcatPrefix(chunks: seq<seq<uint8>>, n: nat)
    requires n < |chunks|
    ensures Concat(chunks[..n + 1]) == chunks[0] + Concat(chunks[1..][..n])
  {
    assert chunks[..n + 1][1..] == chunks[1..][..n];
  }

  /** Once a chunk starts past the end nothing more is loaded. */
  lemma {:induction false} Beyond(mem: seq<uint8>, chunks: seq<seq<uint8>>, offset: nat)
    requires offset > |mem|
    ensures LoadChunks(mem, chunks, offset) == mem
    decreases |chunks|
  {
    if chunks != [] { Beyond(mem, chunks[1..], offset + |chunks[0]|); }
  }

  lemma OverlayNothing(mem: seq<uint8>, offset: nat)
    requires offset <= |mem|
    ensures Overlay(mem, offset, []) == mem
  {
  }

  lemma OverlayAppend(mem: seq<uint8>, offset: nat, a: seq<uint8>, b: seq<uint8>)
    requires offset + |a| + |b| <= |mem|
    ensures Overlay(Overlay(mem, offset, a), offset + |a|, b) == Overlay(mem, offset, a + b)
  {
  }

  /** Loading a file chunk by chunk leaves RAM as loading at once the bytes of the leading
      chunks that fit. */
  lemma {:induction false} ChunksAreOneImage(mem: seq<uint8>, chunks: seq<seq<uint8>>, offset: nat)
    requires offset <= |mem|
    ensures var image := Concat(chunks[..Fitting(chunks, |mem| - offset)]);
            offset + |image| <= |mem| && LoadChunks(mem, chunks, offset) == Overlay(mem, offset, image)
    decreases |chunks|
  {
    var room := |mem| - offset;
    FittingConcat(chunks, room);
    if chunks != [] && |chunks[0]| <= room {
      var c, rest := chunks[0], chunks[1..];
      var n := Fitting(rest, room - |c|);
      ConcatPrefix(chunks, n);
      hide Overlay, Concat;
      ChunksAreOneImage(Overlay(mem, offset, c), rest, offset + |c|);
      OverlayAppend(mem, offset, c, Concat(rest[..n]));
    } else {
      NothingLoaded(mem, chunks, offset);
    }
  }

  lemma NothingLoaded(mem: seq<uint8>, chunks: seq<seq<uint8>>, offset: nat)
    requires offset <= |mem| && (chunks == [] || offset + |chunks[0]| > |mem|)
    ensures LoadChunks(mem, chunks, offset) == Overlay(mem, offset, Concat(chunks[..0]))
  {
    if chunks != [] { Beyond(mem, chunks[1..], offset + |chunks[0]|); }
    OverlayNothing(mem, offset);
    hide Overlay;
  }

  /** A file that fits is loaded whole. */
  lemma FileLoadedWhole(mem: seq<uint8>, chunks: seq<seq<uint8>>)
    requires |Concat(chunks)| <= |mem|
    ensures LoadChunks(mem, chunks, 0) == Overlay(mem, 0, Concat(chunks))
  {
    FittingAll(chunks, |mem|);
    ChunksAreOneImage(mem, chunks, 0);
    assert chunks[..|chunks|] == chunks;
  }

  /** Every chunk that fits is a whole number of words: the boundaries inside RAM are multiples
      of 4. The source ends the process on other chunks. */
  predicate WholeWords(chunks: seq<seq<uint8>>, offset: nat) {
    && (offset <= RAM_SIZE ==> offset % 4 == 0)
    && (chunks != [] ==> WholeWords(chunks[1..], offset + |chunks[0]|))
  }

  lemma NextWhole(file: seq<seq<uint8>>, k: nat, offset: nat)
    requires k < |file| && WholeWords(file[k..], offset)
    ensures offset + |file[k]| <= RAM_SIZE ==> |file[k]| % 4 == 0 && offset % 4 == 0
    ensures WholeWords(file[k + 1..], offset + |file[k]|)
  {
    assert file[k..][1..] == file[k + 1..];
    if offset + |file[k]| <= RAM_SIZE { SumOfMultiples(offset, |file[k]|); }
  }

  // ---------------------------------------------------------------- the system object

  /** A run from `before` in which no cycle does one of the four deviating things ended where the
      reference machine's run does. */
  predicate RunAgrees(before: Machine, cycles: nat, after: Machine, ok: bool)
    requires before.Valid()
  {
    Coherent(before) && FaithfulRun(before, cycles) ==>
      && after.Valid() && Coherent(after)
      && match ReferenceRun(Abs(before), cycles)
         case Continue(a) => ok && Abs(after) == a
         case Stopped(a, o) => ok == o && Abs(after) == a
         case Stuck => false
  }

  function WithMem(m: Machine, mem: seq<uint8>): Machine {
    m.(bus := m.bus.(mem := mem))
  }

  lemma WithMemTwice(m: Machine, mem: seq<uint8>, mem': seq<uint8>)
    ensures WithMem(m, mem).bus.mem == mem && WithMem(WithMem(m, mem), mem') == WithMem(m, mem')
  {
  }

  lemma WithSameMem(m: Machine)
    ensures WithMem(m, m.bus.mem) == m
  {
  }

  lemma SumOfMultiples(x: nat, y: nat)
    requires x % 4 == 0 && (x + y) % 4 == 0
    ensures y % 4 == 0
  {
  }

  lemma LoadIs(m: Machine, data: seq<uint8>, start: uint32)
    requires m.Valid() && !EndsProcess(data)
    ensures (0 + |data| <= RAM_SIZE ==> |data| % 4 == 0) && m.Reset().bus == m.bus
    ensures Act(m, HostAction.LoadImage(data, start))
            == Continue(WithMem(m.Reset().(pc := start), LoadAt(m.bus.mem, data, 0)))
  {
    ResetValid(m);
    hide Overlay, Machine.Valid;
    assert |m.bus.mem| == RAM_SIZE by { MemorySize(m); }
  }

  lemma MemorySize(m: Machine)
    requires m.Valid()
    ensures |m.bus.mem| == RAM_SIZE
  {
    hide Bit;
  }

  class System {
    const bus: Bus
    const cpu: Cpu

    ghost predicate Valid()
      reads cpu, cpu.immu, cpu.dmmu
    {
      bus.Valid() && cpu.Valid() && cpu.bus == bus
    }

    constructor ()
      ensures Valid() && fresh(cpu)
      ensures Coherent(cpu.State())
    {
      var b := new Bus();
      bus := b;
      cpu := new Cpu(b);
      new;
      ghost var m: Machine :| m.Valid() && m.bus == bus.State() && cpu.State() == m.Reset();
      ResetValid(m);
    }

    /** Resets the processor, sets the start address and copies a whole image to address 0. */
    method LoadImage(data: seq<uint8>, start: uint32) returns (length: nat)
      requires Valid() && !EndsProcess(data)
      modifies cpu, cpu.reg, cpu.immu, cpu.dmmu, cpu.immu.matchReg, cpu.dmmu.matchReg, bus.ram.cells
      ensures Valid() && length == |data|
      ensures Continue(cpu.State()) == Act(old(cpu.State()), HostAction.LoadImage(data, start))
    {
      ghost var m := cpu.State();
      LoadIs(m, data, start);
      hide Cpu.State, Cpu.Valid, Cpu.Wired, Machine.Reset, Machine.Valid, LoadAt, WithMem, Act;
      cpu.Reset();
      cpu.SetPC(start);
      CopyChunk(data, 0);
      return |data|;
    }

    /** Copies one chunk into RAM, leaving the processor alone. */
    method CopyChunk(data: seq<uint8>, offset: nat)
      requires Valid() && (offset + |data| <= RAM_SIZE ==> |data| % 4 == 0 && offset % 4 == 0)
      modifies bus.ram.cells
      ensures Valid()
      ensures var m := old(cpu.State());
              cpu.State() == WithMem(m, LoadAt(m.bus.mem, data, offset))
    {
      var _ := bus.ram.LoadImage(data, offset);
    }

    /** Loads a file given as the blocks read from it; None is a file that cannot be opened. */
    method LoadImageFile(file: Option<seq<seq<uint8>>>, start: uint32) returns (ok: bool)
      requires Valid()
      requires file.Some? ==> WholeWords(file.value, 0)
      modifies cpu, cpu.reg, cpu.immu, cpu.dmmu, cpu.immu.matchReg, cpu.dmmu.matchReg, bus.ram.cells
      ensures Valid() && ok == file.Some?
      ensures var m := old(cpu.State()).Reset().(pc := start);
              cpu.State() == if ok then WithMem(m, LoadChunks(m.bus.mem, file.value, 0)) else m
    {
      cpu.Reset();
      cpu.SetPC(start);
      if file.None? {
        return false;
      }
      CopyChunks(file.value);
      return true;
    }

    /** One pass of the loop: the chunk is copied and the offset moved past it. */
    method CopyNext(ghost m: Machine, ghost mem: seq<uint8>, file: seq<seq<uint8>>, k: nat, offset: nat)
      returns (next: nat)
      requires Valid() && k < |file| && WholeWords(file[k..], offset) && cpu.State() == WithMem(m, mem)
      modifies bus.ram.cells
      ensures Valid() && next == offset + |file[k]| && WholeWords(file[k + 1..], next)
      ensures cpu.State() == WithMem(m, LoadAt(mem, file[k], offset))
    {
      hide Cpu.State, Cpu.Valid, Cpu.Wired, LoadAt, WholeWords, Overlay, WithMem;
      NextWhole(file, k, offset);
      CopyChunk(file[k], offset);
      WithMemTwice(m, mem, LoadAt(mem, file[k], offset));
      next := offset + |file[k]|;
    }

    method CopyChunks(file: seq<seq<uint8>>)
      requires Valid() && WholeWords(file, 0)
      modifies bus.ram.cells
      ensures Valid()
      ensures var m := old(cpu.State());
              cpu.State() == WithMem(m, LoadChunks(m.bus.mem, file, 0))
    {
      ghost var m := cpu.State();
      hide Cpu.State, Cpu.Valid, Cpu.Wired, LoadAt, LoadChunks, WholeWords, Overlay, WithMem;
      WithSameMem(m);
      var k, offset := 0, 0;
      ghost var mem := m.bus.mem;
      assert file[0..] == file;
      while k < |file|
        invariant 0 <= k <= |file| && Valid() && offset >= 0 && WholeWords(file[k..], offset)
        invariant cpu.State() == WithMem(m, mem)
        invariant LoadChunks(mem, file[k..], offset) == LoadChunks(m.bus.mem, file, 0)
      {
        offset := CopyNext(m, mem, file, k, offset);
        LoadNext(mem, file, k, offset - |file[k]|);
        mem := LoadAt(mem, file[k], offset - |file[k]|);
        k := k + 1;
      }
      LoadRest(mem, file[k..], offset);
    }

    /** Running the object is running the reference machine, whenever the run is faithful. */
    method Run(cycles: nat) returns (ok: bool)
      requires Valid() && !MachineRun(cpu.State(), cycles).Stuck?
      modifies cpu, cpu.immu, cpu.dmmu, cpu.reg, cpu.immu.matchReg, cpu.immu.translateReg, cpu.dmmu.matchReg,
               cpu.dmmu.translateReg, bus.uart, bus.ram.cells
      ensures Valid() && Outcome(old(MachineRun(cpu.State(), cycles)), cpu.State(), ok)
      ensures RunAgrees(old(cpu.State()), cycles, cpu.State(), ok)
    {
      ghost var m := cpu.State();
      hide Cpu.State, Cpu.Valid, Cpu.Wired, MachineRun, ReferenceRun, Abs, Coherent, FaithfulRun;
      if Coherent(m) && FaithfulRun(m, cycles) {
        RunRefines(m, cycles);
      }
      ok := cpu.Run(cycles);
    }
  }
}
