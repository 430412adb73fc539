/** The MMU object (simctty/mmu.cc): register arrays and a one-entry page cache updated in
    place, with a raw-pointer path for words on the remembered page. */
module Mmu {
  import opened Words
  import opened Exceptions
  import opened Memory
  import opened Bus
  import opened Translation

  /** The exception out-parameter of the source. */
  type Signal = Option<Exception>

  /** Whether (value, signal, after) is what a bus reply stands for, from state `before`. */
  predicate Answers(r: Reply, before: BusState, value: uint32, signal: Signal, after: BusState) {
    match r
    case Value(v, b) => signal == None && value == v && after == b
    case Fault(e) => signal == Some(e) && value == 0 && after == before
    case Undefined => false
  }

  class Mmu {
    const bus: Bus
    const kind: Kind
    const matchReg: array<uint32>
    const translateReg: array<uint32>
    var enabled: bool
    var control: uint32
    var authedPage: uint32
    var authedPhy: uint32

    ghost predicate Valid()
      reads this
    {
      && bus.Valid()
      && matchReg.Length == SETS && translateReg.Length == SETS && matchReg != translateReg
      && (matchReg as object) != bus.ram.cells && (translateReg as object) != bus.ram.cells
      && CacheRegisters(authedPage, authedPhy)
    }

    ghost function State(): (u: MmuState)
      requires Valid()
      reads this, matchReg, translateReg
      ensures u.Valid() && u.kind == kind && u.enabled == enabled
    {
      MmuState(kind, enabled, Tlb(control, matchReg[..], translateReg[..]),
               CacheOf(authedPage, authedPhy))
    }

    constructor (bus: Bus, kind: Kind)
      requires bus.Valid()
      ensures Valid() && this.bus == bus && this.kind == kind
      ensures fresh(matchReg) && fresh(translateReg)
      ensures !State().enabled && State().cache == NoPage && forall i :: 0 <= i < SETS ==> matchReg[i] == 0
    {
      this.bus, this.kind := bus, kind;
      matchReg, translateReg := new uint32[SETS], new uint32[SETS];
      enabled, authedPage, authedPhy := false, 1, 0;
      new;
      Reset();
    }

    method Reset()
      requires Valid()
      modifies this`authedPage, matchReg
      ensures Valid()
      ensures State() == old(State()).(tlb := old(State()).tlb.(matches := seq(SETS, i => 0)), cache := NoPage)
    {
      var i := 0;
      while i < SETS
        invariant 0 <= i <= SETS && forall k :: 0 <= k < i ==> matchReg[k] == 0
        invariant Valid() && authedPage == old(authedPage)
      {
        matchReg[i] := 0;
        i := i + 1;
      }
      assert matchReg[..] == seq(SETS, i => 0);
      ClearFastAuthCache();
    }

    method ClearFastAuthCache()
      requires Valid()
      modifies this`authedPage
      ensures Valid() && State() == old(State()).(cache := NoPage)
    {
      authedPage := 1;
    }

    method SetIsEnabled(on: bool)
      requires Valid()
      modifies this`authedPage, this`enabled
      ensures Valid() && State() == old(State()).(enabled := on, cache := NoPage)
    {
      authedPage := 1;
      enabled := on;
    }

    /** Writes a register; the source ends the process on an index it does not have. */
    method SetReg(index: nat, value: uint32)
      requires Valid() && State().tlb.Write(index, value).Some?
      modifies this`authedPage, this`control, matchReg, translateReg
      ensures Valid()
      ensures State() == old(State()).(tlb := old(State()).tlb.Write(index, value).value, cache := NoPage)
    {
      ClearFastAuthCache();
      if index == 0 {
        control := value;
      } else if index >= MATCH_OFFSET && index < MATCH_OFFSET + SETS {
        matchReg[index - MATCH_OFFSET] := value;
      } else {
        translateReg[index - TRANSLATE_OFFSET] := value;
      }
    }

    method Reg(index: nat) returns (value: uint32)
      requires Valid() && State().tlb.Read(index).Some?
      ensures value == State().tlb.Read(index).value
    {
      if index == 0 {
        value := control;
      } else if index >= MATCH_OFFSET && index < MATCH_OFFSET + SETS {
        value := matchReg[index - MATCH_OFFSET];
      } else {
        value := translateReg[index - TRANSLATE_OFFSET];
      }
    }

    method MapAddress(address: uint32, sm: bool, write: bool) returns (phy: uint32, signal: Signal, isRam: bool)
      requires Valid()
      modifies this`authedPage, this`authedPhy
      ensures Valid() && State() == old(State()).AfterMap(address, sm, write)
      ensures signal == (match old(State()).Map(address, sm, write) case Missed(e) => Some(e) case Mapped(_) => None)
      ensures signal.None? ==> phy == old(State()).Map(address, sm, write).phy && isRam == (phy < RAM_SIZE)
    {
      hide Bit;
      if !enabled {
        return address, None, address < RAM_SIZE;
      }
      var page := address / PAGE_SIZE;
      var set_ := address / PAGE_SIZE % USED_SETS;
      var mr := matchReg[set_];
      phy := address;
      if Bit(mr, 1) && mr / PAGE_SIZE == page {
        var tr := translateReg[set_];
        var ok := false;
        if kind == InstructionMmu {
          ok := Bit(tr, 0x40) || Bit(tr, 0x80);
        } else if sm {
          if write {
            ok := Bit(tr, 0x200) || Bit(tr, 0x80);
          } else {
            ok := Bit(tr, 0x100) || Bit(tr, 0x40);
          }
        } else {
          if write {
            ok := Bit(tr, 0x80);
          } else {
            ok := Bit(tr, 0x40);
          }
        }
        if ok {
          FrameJoin(tr, address);
          PageOfPage(address);
          PageOfPage(tr);
          phy := PageOf(tr) + address % PAGE_SIZE;
          signal := None;
          if phy < RAM_SIZE {
            authedPage := PageOf(address);
            authedPhy := PageOf(tr);
            assert authedPage != 1;
          } else {
            authedPage := 1;
          }
          isRam := phy < RAM_SIZE;
        } else {
          signal := Some(if kind == DataMmu then DataPageFault else InstructionPageFault);
          isRam := false;
        }
      } else {
        signal := Some(if kind == DataMmu then DtlbMiss else ItlbMiss);
        isRam := false;
      }
    }

    // -------------------------------------------------------------- accesses

    method Load8(address: uint32, sm: bool) returns (value: uint32, signal: Signal)
      requires Valid() && State().Load(bus.State(), 1, address, sm) != Undefined
      modifies this`authedPage, this`authedPhy, bus.uart
      ensures Valid() && State() == old(State()).AfterLoad(1, address, sm)
      ensures Answers(old(State().Load(bus.State(), 1, address, sm)), old(bus.State()), value, signal, bus.State())
    {
      var phy, s, isRam := MapAddress(address, sm, false);
      if s.Some? {
        return 0, s;
      }
      if isRam {
        value := bus.ram.Load8(phy);
        return value, None;
      }
      match GetDevice(phy)
      case NoDevice => return 0, Some(BusError);
      case UartDevice => value := bus.uart.Load8(phy); signal := None;
      case RamDevice => assert false;
    }

    method Store8(address: uint32, value: uint8, sm: bool) returns (signal: Signal)
      requires Valid() && State().Store(bus.State(), 1, address, value, sm) != Undefined
      modifies this`authedPage, this`authedPhy, bus.uart, bus.ram.cells
      ensures Valid() && State() == old(State()).AfterStore(1, address, sm)
      ensures Answers(old(State().Store(bus.State(), 1, address, value, sm)), old(bus.State()), 0, signal, bus.State())
    {
      var phy, s, isRam := MapAddress(address, sm, true);
      if s.Some? {
        return s;
      }
      if isRam {
        bus.ram.Store8(phy, value);
        return None;
      }
      match GetDevice(phy)
      case NoDevice => return Some(BusError);
      case UartDevice => bus.uart.Store8(phy, value); signal := None;
      case RamDevice => assert false;
    }

    method Load16(address: uint32, sm: bool) returns (value: uint32, signal: Signal)
      requires Valid() && State().Load(bus.State(), 2, address, sm) != Undefined
      modifies this`authedPage, this`authedPhy
      ensures Valid() && State() == old(State()).AfterLoad(2, address, sm)
      ensures Answers(old(State().Load(bus.State(), 2, address, sm)), old(bus.State()), value, signal, bus.State())
    {
      if address % 2 != 0 {
        return 0, Some(Alignment);
      }
      var phy, s, isRam := MapAddress(address, sm, false);
      if s.Some? {
        return 0, s;
      }
      if isRam {
        value := bus.ram.Load16(phy);
        return value, None;
      }
      return 0, Some(BusError);
    }

    method Store16(address: uint32, value: uint16, sm: bool) returns (signal: Signal)
      requires Valid() && State().Store(bus.State(), 2, address, value, sm) != Undefined
      modifies this`authedPage, this`authedPhy, bus.ram.cells
      ensures Valid() && State() == old(State()).AfterStore(2, address, sm)
      ensures Answers(old(State().Store(bus.State(), 2, address, value, sm)), old(bus.State()), 0, signal, bus.State())
    {
      if address % 2 != 0 {
        return Some(Alignment);
      }
      var phy, s, _ := MapAddress(address, sm, true);
      if s.Some? {
        return s;
      }
      if address < RAM_SIZE {
        bus.ram.Store16(phy, value);
        return None;
      }
      match GetDevice(phy)
      case NoDevice => return Some(BusError);
      case UartDevice => return Some(BusError);
      case RamDevice => bus.ram.Store16(phy, value); signal := None;
    }

    method Load32(address: uint32, sm: bool) returns (value: uint32, signal: Signal)
      requires Valid() && State().Load(bus.State(), 4, address, sm) != Undefined
      modifies this`authedPage, this`authedPhy
      ensures Valid() && State() == old(State()).AfterLoad(4, address, sm)
      ensures Answers(old(State().Load(bus.State(), 4, address, sm)), old(bus.State()), value, signal, bus.State())
    {
      if PageOf(address) == authedPage {
        FramePage(authedPhy, address);
        bus.ram.RawWordIsBigEndian(authedPhy + address % PAGE_SIZE);
        return bus.ram.RawWord(authedPhy + address % PAGE_SIZE), None;
      }
      var phy, s, isRam := MapAddress(address, sm, false);
      if s.Some? {
        return 0, s;
      }
      if isRam {
        bus.ram.RawWordIsBigEndian(phy);
        return bus.ram.RawWord(phy), None;
      }
      return 0, Some(BusError);
    }

    method Store32(address: uint32, value: uint32, sm: bool) returns (signal: Signal)
      requires Valid() && State().Store(bus.State(), 4, address, value, sm) != Undefined
      modifies this`authedPage, this`authedPhy, bus.ram.cells
      ensures Valid() && State() == old(State()).AfterStore(4, address, sm)
      ensures Answers(old(State().Store(bus.State(), 4, address, value, sm)), old(bus.State()), 0, signal, bus.State())
    {
      if address % 4 != 0 {
        return Some(Alignment);
      }
      var phy, s, isRam := MapAddress(address, sm, true);
      if s.Some? {
        return s;
      }
      if isRam {
        bus.ram.Store32(phy, value);
        return None;
      }
      return Some(BusError);
    }
  }
}
