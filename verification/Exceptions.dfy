/** The exception enumeration and its vector table (simctty/exception.h). */
module Exceptions {
  import opened Words

  datatype Exception =
    | BusError | DataPageFault | InstructionPageFault | TickTimerInterrupt | Alignment
    | IllegalInstruction | ExternalInterrupt | DtlbMiss | ItlbMiss | SystemCall

  /** The address of the handler. */
  function Vector(e: Exception): uint32 {
    match e
    case BusError => 0x200
    case DataPageFault => 0x300
    case InstructionPageFault => 0x400
    case TickTimerInterrupt => 0x500
    case Alignment => 0x600
    case IllegalInstruction => 0x700
    case ExternalInterrupt => 0x800
    case DtlbMiss => 0x900
    case ItlbMiss => 0xa00
    case SystemCall => 0xc00
  }

  /** Whether the exception records an effective address in EEAR. */
  predicate SetsEear(e: Exception) {
    match e
    case TickTimerInterrupt => false
    case ExternalInterrupt => false
    case SystemCall => false
    case _ => true
  }
}
