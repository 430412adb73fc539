/** The physical address space (simctty/bus.cc, simctty/bus_device.h): RAM, the serial device,
    and bus errors everywhere else. */
module Bus {
  import opened Words
  import opened Exceptions
  import opened Memory
  import opened Ram
  import opened Uart

  datatype Device = RamDevice | UartDevice | NoDevice

  /** The device that answers a physical address. */
  function GetDevice(address: uint32): Device {
    if address < RAM_SIZE then RamDevice
    else if UART_BASE <= address <= UART_LAST then UartDevice
    else NoDevice
  }

  /** What software can reach over the bus. */
  datatype BusState = BusState(mem: seq<uint8>, uart: UartState) {
    predicate Valid() { |mem| == RAM_SIZE }

    /** The interrupt lines as the interrupt controller samples them. */
    function Interrupts(): uint32 {
      if uart.Asserted() then 4 else 0
    }
  }

  datatype Reply =
    | Value(value: uint32, bus: BusState)
    | Fault(exception: Exception)
    | Undefined   // the C++ program has no defined behaviour

  /** A physical load. Only bytes can be read from the serial device. */
  function BusLoad(bus: BusState, width: nat, phy: uint32): Reply
    requires bus.Valid() && width in {1, 2, 4}
  {
    match GetDevice(phy)
    case RamDevice =>
      if phy % width != 0 then Undefined
      else if width == 1 then Value(Get8(bus.mem, phy), bus)
      else if width == 2 then Value(Get16(bus.mem, phy), bus)
      else Value(Get32(bus.mem, phy), bus)
    case UartDevice =>
      if width != 1 then Fault(BusError)
      else
        var (u, v) := bus.uart.Load(Wrap(phy - UART_BASE));
        Value(v, bus.(uart := u))
    case NoDevice => Fault(BusError)
  }

  /** A physical store of the low `width` bytes of v. */
  function BusStore(bus: BusState, width: nat, phy: uint32, v: uint32): Reply
    requires bus.Valid() && width in {1, 2, 4}
  {
    match GetDevice(phy)
    case RamDevice =>
      if phy % width != 0 then Undefined
      else Value(0, bus.(mem := Put(bus.mem, StoreOp(width, phy, v))))
    case UartDevice =>
      if width != 1 then Fault(BusError)
      else Value(0, bus.(uart := bus.uart.Store(Wrap(phy - UART_BASE), v % 0x100)))
    case NoDevice => Fault(BusError)
  }

  /** The bus object: the devices it owns. */
  class Bus {
    const ram: Ram
    const uart: Uart

    ghost predicate Valid() {
      ram.Valid()
    }

    ghost function State(): (s: BusState)
      requires Valid()
      reads ram.cells, uart
      ensures s.Valid()
    {
      BusState(ram.Bytes(), uart.State())
    }

    constructor ()
      ensures Valid() && fresh(ram) && fresh(ram.cells) && fresh(uart)
      ensures State().uart == POWER_ON
    {
      ram := new Ram();
      uart := new Uart();
    }

    method Interrupts() returns (lines: uint32)
      requires Valid()
      ensures lines == State().Interrupts()
    {
      var asserted := uart.IsInterruptAsserted();
      lines := if asserted then 4 else 0;
    }
  }
}
