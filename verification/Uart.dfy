/** The serial device (simctty/uart.cc): its register behaviour as functions on a state value,
    the class that updates it in place, and what is conserved over every use of it. */
module Uart {
  import opened Words

  const UART_BASE := 0x9000_0000
  const UART_LAST := 0x9000_0100

  datatype UartState = UartState(
    keys: seq<uint8>, display: seq<uint8>,
    ier: uint8, lcr: uint8, mcr: uint8, dll: uint8, dlm: uint8,
    thrInterrupt: bool, fifos: bool)
  {
    predicate Dlab() { Bit(lcr, 0x80) }

    predicate DataReady() { keys != [] && Bit(ier, 1) }

    predicate TransmitReady() { Bit(ier, 2) && thrInterrupt }

    predicate Asserted() { DataReady() || TransmitReady() }

    function Iir(): uint8 {
      (if fifos then 0xc0 else 0) + (if Asserted() then 0 else 1) +
      (if DataReady() then 4 else if TransmitReady() then 2 else 0)
    }

    function Load(r: uint32): (UartState, uint8) {
      if Dlab() && r == 0 then (this, dll)
      else if Dlab() && r == 1 then (this, dlm)
      else match r
        case 0 => if keys == [] then (this, 0) else (this.(keys := keys[1..]), keys[0])
        case 1 => (this, ier)
        case 2 => (this.(thrInterrupt := false), Iir())
        case 3 => (this, lcr)
        case 4 => (this, mcr)
        case 5 => (this, if keys == [] then 0x60 else 0x61)
        case _ => (this, 0)
    }

    function Store(r: uint32, v: uint8): UartState {
      if Dlab() && r == 0 then this.(dll := v)
      else if Dlab() && r == 1 then this.(dlm := v)
      else match r
        case 0 => this.(display := display + [v], thrInterrupt := Bit(ier, 2))
        case 1 => this.(ier := v)
        case 2 => this.(fifos := Bit(v, 1))
        case 3 => this.(lcr := v)
        case 4 => this.(mcr := v)
        case _ => this
    }

    function Press(c: uint8): UartState {
      this.(keys := keys + [c])
    }

    function HostRead(): (UartState, uint8) {
      if display == [] then (this, 0) else (this.(display := display[1..]), display[0])
    }
  }

  const POWER_ON := UartState([], [], 0, 3, 0, 0, 0, false, false)

  /** The device object; its CPU-side accesses take bus addresses. */
  class Uart {
    var keys: seq<uint8>
    var display: seq<uint8>
    var ier: uint8
    var lcr: uint8
    var mcr: uint8
    var dll: uint8
    var dlm: uint8
    var thrInterrupt: bool
    var fifos: bool

    ghost function State(): UartState
      reads this
    {
      UartState(keys, display, ier, lcr, mcr, dll, dlm, thrInterrupt, fifos)
    }

    constructor ()
      ensures State() == POWER_ON
    {
      keys, display, ier, lcr, mcr, dll, dlm, thrInterrupt, fifos := [], [], 0, 3, 0, 0, 0, false, false;
    }

    predicate IsDataReadyInterrupt()
      reads this
    {
      keys != [] && Bit(ier, 1)
    }

    predicate IsTransmitReadyInterrupt()
      reads this
    {
      Bit(ier, 2) && thrInterrupt
    }

    method IsInterruptAsserted() returns (asserted: bool)
      ensures asserted == State().Asserted()
    {
      if IsDataReadyInterrupt() || IsTransmitReadyInterrupt() {
        return true;
      }
      return false;
    }

    method Load8(address: uint32) returns (value: uint8)
      modifies this
      ensures (State(), value) == old(State()).Load(Wrap(address - UART_BASE))
    {
      var r := Wrap(address - UART_BASE);
      if Bit(lcr, 0x80) {
        if r == 0 { return dll; }
        if r == 1 { return dlm; }
      }
      if r == 0 {
        if keys == [] {
          return 0;
        }
        value := keys[0];
        keys := keys[1..];
      } else if r == 1 {
        return ier;
      } else if r == 2 {
        var asserted := IsInterruptAsserted();
        value := (if fifos then 0xc0 else 0x00) + (if asserted then 0 else 1) +
                 (if IsDataReadyInterrupt() then 4 else if IsTransmitReadyInterrupt() then 2 else 0);
        thrInterrupt := false;
      } else if r == 3 {
        return lcr;
      } else if r == 4 {
        return mcr;
      } else if r == 5 {
        return 0x60 + if keys == [] then 0 else 1;
      } else {
        return 0;
      }
    }

    method Store8(address: uint32, value: uint8)
      modifies this
      ensures State() == old(State()).Store(Wrap(address - UART_BASE), value)
    {
      var r := Wrap(address - UART_BASE);
      if Bit(lcr, 0x80) {
        if r == 0 { dll := value; return; }
        if r == 1 { dlm := value; return; }
      }
      if r == 0 {
        display := display + [value];
        if Bit(ier, 2) {
          thrInterrupt := true;
        } else {
          thrInterrupt := false;
        }
      } else if r == 1 {
        ier := value;
      } else if r == 2 {
        fifos := Bit(value, 1);
      } else if r == 3 {
        lcr := value;
      } else if r == 4 {
        mcr := value;
      }
    }

    method Keypress(c: uint8)
      modifies this
      ensures State() == old(State()).Press(c)
    {
      keys := keys + [c];
    }

    method Read() returns (c: uint8)
      modifies this
      ensures (State(), c) == old(State()).HostRead()
    {
      if display == [] {
        return 0;
      }
      c := display[0];
      display := display[1..];
    }

    method CanRead() returns (available: bool)
      ensures available == (State().display != [])
    {
      return display != [];
    }
  }

  // ---------------------------------------------------------------- conservation

  /** One use of the device: by the CPU (register accesses) or by the host. */
  datatype Use = CpuLoad(r: uint32) | CpuStore(r: uint32, v: uint8) | KeyPressed(c: uint8) | ScreenRead

  function Apply(u: UartState, e: Use): UartState {
    match e
    case CpuLoad(r) => u.Load(r).0
    case CpuStore(r, v) => u.Store(r, v)
    case KeyPressed(c) => u.Press(c)
    case ScreenRead => u.HostRead().0
  }

  /** The state after a sequence of uses, the last element being the latest. */
  function After(u: UartState, es: seq<Use>): UartState {
    if es == [] then u else Apply(After(u, es[..|es| - 1]), es[|es| - 1])
  }

  /** The bytes the CPU has sent: stores to the transmit register with DLAB clear. */
  function Sent(u: UartState, es: seq<Use>): seq<uint8> {
    if es == [] then []
    else
      var front, e := es[..|es| - 1], es[|es| - 1];
      Sent(u, front) + if e.CpuStore? && e.r == 0 && !After(u, front).Dlab() then [e.v] else []
  }

  /** The bytes the host has taken for display. */
  function Shown(u: UartState, es: seq<Use>): seq<uint8> {
    if es == [] then []
    else
      var front, e := es[..|es| - 1], es[|es| - 1];
      Shown(u, front) + if e.ScreenRead? && After(u, front).display != [] then [After(u, front).HostRead().1] else []
  }

  /** The keys the host has pressed. */
  function Pressed(es: seq<Use>): seq<uint8> {
    if es == [] then []
    else Pressed(es[..|es| - 1]) + if es[|es| - 1].KeyPressed? then [es[|es| - 1].c] else []
  }

  /** The bytes the CPU has received: nonempty reads of the receive register with DLAB clear. */
  function Received(u: UartState, es: seq<Use>): seq<uint8> {
    if es == [] then []
    else
      var front, e := es[..|es| - 1], es[|es| - 1];
      var v := After(u, front);
      Received(u, front) + if e.CpuLoad? && e.r == 0 && !v.Dlab() && v.keys != [] then [v.Load(0).1] else []
  }

  /** Over every interleaving of CPU accesses and host calls no byte is lost, duplicated or
      reordered in either direction. */
  lemma {:induction false} BytesConserved(u: UartState, es: seq<Use>)
    ensures u.display + Sent(u, es) == Shown(u, es) + After(u, es).display
    ensures u.keys + Pressed(es) == Received(u, es) + After(u, es).keys
  {
    if es != [] {
      BytesConserved(u, es[..|es| - 1]);
      OneUse(After(u, es[..|es| - 1]), es[|es| - 1],
             u.display + Sent(u, es[..|es| - 1]), Shown(u, es[..|es| - 1]),
             u.keys + Pressed(es[..|es| - 1]), Received(u, es[..|es| - 1]));
      assert u.display + Sent(u, es)
             == (u.display + Sent(u, es[..|es| - 1])) + Sent(u, es)[|Sent(u, es[..|es| - 1])|..];
      assert u.keys + Pressed(es) == (u.keys + Pressed(es[..|es| - 1])) + Pressed(es)[|Pressed(es[..|es| - 1])|..];
    }
  }

  lemma OneUse(v: UartState, e: Use, sent: seq<uint8>, shown: seq<uint8>, pressed: seq<uint8>, received: seq<uint8>)
    requires sent == shown + v.display && pressed == received + v.keys
    ensures sent + (if e.CpuStore? && e.r == 0 && !v.Dlab() then [e.v] else [])
            == shown + (if e.ScreenRead? && v.display != [] then [v.HostRead().1] else []) + Apply(v, e).display
    ensures pressed + (if e.KeyPressed? then [e.c] else [])
            == received + (if e.CpuLoad? && e.r == 0 && !v.Dlab() && v.keys != [] then [v.Load(0).1] else [])
               + Apply(v, e).keys
  {
  }

  // ---------------------------------------------------------------- the interrupt line

  /** Whether, of the writes to the transmit register (DLAB clear) and the reads of IIR, the
      latest was a write made while IER bit 1 was set; `before` if there was none. */
  predicate LatestWasArmedWrite(u: UartState, es: seq<Use>, before: bool) {
    if es == [] then before
    else
      var front, e := es[..|es| - 1], es[|es| - 1];
      var v := After(u, front);
      if e.CpuStore? && e.r == 0 && !v.Dlab() then Bit(v.ier, 2)
      else if e.CpuLoad? && e.r == 2 then false
      else LatestWasArmedWrite(u, front, before)
  }

  /** The interrupt line, after every interleaving from power-on. */
  lemma {:induction false} InterruptLine(es: seq<Use>)
    ensures var v := After(POWER_ON, es);
            v.Asserted() <==>
              (v.keys != [] && Bit(v.ier, 1)) || (Bit(v.ier, 2) && LatestWasArmedWrite(POWER_ON, es, false))
  {
    ThrFlag(POWER_ON, es);
  }

  lemma {:induction false} ThrFlag(u: UartState, es: seq<Use>)
    ensures After(u, es).thrInterrupt == LatestWasArmedWrite(u, es, u.thrInterrupt)
  {
    if es != [] { ThrFlag(u, es[..|es| - 1]); }
  }

  // ---------------------------------------------------------------- register values

  /** The interrupt identification register: bit 0 clear exactly if the line is asserted, bit 2 set
      exactly if a received byte asserts it, bit 1 exactly if only the transmitter does, the two top
      bits exactly if the queues are on. Reading it acknowledges the transmitter and nothing else. */
  lemma IdentificationBits(u: UartState)
    ensures var (s, v) := u.Load(2);
            && s == u.(thrInterrupt := false)
            && (v % 2 == 0 <==> u.Asserted())
            && (v / 4 % 2 == 1 <==> u.keys != [] && u.ier % 2 == 1)
            && (v / 2 % 2 == 1 <==> u.ier / 2 % 2 == 1 && u.thrInterrupt && !(u.keys != [] && u.ier % 2 == 1))
            && v / 8 % 8 == 0 && v / 0x40 == if u.fifos then 3 else 0
    ensures u.Asserted() <==> (u.keys != [] && u.ier % 2 == 1) || (u.ier / 2 % 2 == 1 && u.thrInterrupt)
  {
  }

  /** The line status register: the transmitter is always empty; bit 0 tells of a byte to read. */
  lemma StatusBits(u: UartState)
    ensures var (s, v) := u.Load(5);
            s == u && v / 2 == 0x30 && (v % 2 == 1 <==> u.keys != [])
  {
  }

  /** Above the line status register there is nothing: zero to read, and stores are ignored. */
  lemma NothingAbove(u: UartState, r: uint32, v: uint8)
    requires r > 5
    ensures u.Load(r) == (u, 0) && u.Store(r, v) == u
  {
  }

  /** The registers that keep what is stored in them: with the divisor latch open the two divisor
      bytes take the place of the data and interrupt enable registers. */
  predicate Keeps(u: UartState, r: uint32) {
    r == 1 || r == 3 || r == 4 || (r == 0 && u.lcr / 0x80 == 1)
  }

  /** What is stored is read back, for as long as the latch stays as it is. */
  lemma StoredIsRead(u: UartState, r: uint32, v: uint8)
    requires Keeps(u, r)
    ensures var s := u.Store(r, v);
            r == 3 || s.lcr == u.lcr
    ensures u.Store(r, v).Load(r) == (u.Store(r, v), v)
  {
  }

  /** A store of any register leaves what the others read, but for the line control register, which
      opens and closes the latch. */
  lemma OtherRegistersKept(u: UartState, r: uint32, v: uint8, other: uint32)
    requires r != other && Keeps(u, other) && (r == 3 ==> other == 4)
    ensures u.Store(r, v).Load(other).1 == u.Load(other).1
  {
  }

  /** The divisor behind the latch: opening it, setting the divisor and closing it leaves the data
      path and the interrupt enables as they were. */
  lemma DivisorIsApart(u: UartState, lo: uint8, hi: uint8)
    requires u.lcr < 0x80
    ensures var s := u.Store(3, u.lcr + 0x80).Store(0, lo).Store(1, hi);
            && s.Load(0) == (s, lo) && s.Load(1) == (s, hi)
            && s.Store(3, u.lcr) == u.(dll := lo, dlm := hi)
  {
  }

  /** Sending a byte with the transmit interrupt enabled and no byte received asserts the line and
      reads as such; reading that ends it. */
  lemma SendingInterrupts(u: UartState, v: uint8)
    requires u.lcr < 0x80 && u.ier / 2 % 2 == 1 && (u.keys == [] || u.ier % 2 == 0)
    ensures var s := u.Store(0, v);
            s.display == u.display + [v] && s.Asserted() && s.Load(2).1 % 8 == 2 && !s.Load(2).0.Asserted()
  {
  }
}
