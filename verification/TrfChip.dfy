/**
 * The TRF797x transceiver as the driver sees it: registers and a FIFO behind an SPI bus
 * (drivers/trf797x/trf797x_lld.h), and a radio that works at its own pace. What the chip does
 * between two accesses, and how every wait for its interrupt ends, is fixed by a schedule given
 * in advance; as the schedule is arbitrary, it covers every interleaving.
 */
module TrfChip {
  import opened Bytes

  const FIFO_SIZE: nat := 127

  const RESET_FIFO: Byte := 0x0F
  const TX_NO_CRC: Byte := 0x10
  const TX: Byte := 0x11

  const TX_LENGTH1: Byte := 0x1D
  const TX_LENGTH2: Byte := 0x1E
  const FIFO: Byte := 0x1F

  const IRQ_FIFO: Byte := 0x20
  const IRQ_SRX: Byte := 0x40
  const IRQ_TX: Byte := 0x80
  const IRQ_ERROR: Byte := 0x1E

  predicate Has(status: Byte, flags: Byte) { status & flags != 0 }

  // ----- The radio ----------------------------------------------------------------------

  /** How a wait ends: nothing happened in time, the driver is being stopped, or an interrupt
      whose status register the chip will show. */
  datatype Wake = Timeout | Stop | Irq(status: Byte)

  /** What goes on around one access: up to `shift` bytes move between FIFO and air, and a
      finished transmission may turn into reception. */
  datatype Move = Move(shift: nat, turn: bool, wake: Wake)

  /** `air` is what has been sent, of `goal` bytes; `incoming` what is still to arrive. */
  datatype Chip = Chip(fifo: seq<Byte>, air: seq<Byte>, goal: nat, sending: bool,
                       incoming: seq<Byte>, moves: seq<Move>)

  /** One move of the radio. It takes from the FIFO in order, sends all it was told to before it
      turns to receiving, and lets no byte arrive for which the FIFO has no room. */
  function Drift(c: Chip): Chip {
    if c.moves == [] then c
    else
      var m, d := c.moves[0], c.(moves := c.moves[1..]);
      if c.sending then
        var k := Least(m.shift, |c.fifo|);
        var e := d.(fifo := c.fifo[k..], air := c.air + c.fifo[..k]);
        if m.turn && e.goal <= |e.air| && e.fifo == [] then e.(sending := false) else e
      else
        var k := Least(Least(m.shift, |c.incoming|), if |c.fifo| <= FIFO_SIZE then FIFO_SIZE - |c.fifo| else 0);
        d.(fifo := c.fifo + c.incoming[..k], incoming := c.incoming[k..])
  }

  /** An access before the request is out. The answer does not arrive before it is asked for. */
  function Pause(c: Chip): Chip {
    if c.moves == [] then c else c.(moves := c.moves[1..])
  }

  /** How the next wait ends. When the schedule is over, the driver is stopped. */
  function NextWake(c: Chip): Wake {
    if c.moves == [] then Stop else c.moves[0].wake
  }

  /** The interrupt status register; the end of transmission shows only when it is reached. */
  function Status(c: Chip, status: Byte): Byte {
    if c.sending then status & 0x7F else status
  }

  // ----- The bus ------------------------------------------------------------------------

  /** The bus interface: idle, or in the middle of a register write. */
  datatype Mode = Idle | Writing(address: Byte, continuous: bool)

  /** `command` is the last transmit command, 0 when there was none. */
  datatype Bus = Bus(mode: Mode, fifo: seq<Byte>, command: Byte, length1: Byte, length2: Byte)

  function Store(b: Bus, address: Byte, value: Byte): Bus {
    if address == TX_LENGTH1 then b.(length1 := value)
    else if address == TX_LENGTH2 then b.(length2 := value)
    else if address == FIFO then b.(fifo := b.fifo + [value])
    else b
  }

  function Obey(b: Bus, opcode: Byte): Bus {
    if opcode == RESET_FIFO then b.(fifo := [])
    else if opcode == TX || opcode == TX_NO_CRC then b.(command := opcode)
    else b
  }

  /** The address after a write: the FIFO takes any number of bytes. */
  function NextAddress(address: Byte): Byte {
    if address == FIFO then FIFO else address + 1
  }

  /** One byte from the driver. */
  function Receive(b: Bus, byte: Byte): Bus {
    match b.mode
    case Idle =>
      if byte & 0x80 != 0 then Obey(b, byte & 0x1F)
      else if byte & 0x40 == 0 then b.(mode := Writing(byte & 0x1F, byte & 0x20 != 0))
      else b
    case Writing(address, continuous) =>
      Store(b, address, byte).(mode := if continuous then Writing(NextAddress(address), true) else Idle)
  }

  function ReceiveAll(b: Bus, bytes: seq<Byte>): Bus
    decreases |bytes|
  {
    if bytes == [] then b else ReceiveAll(Receive(b, bytes[0]), bytes[1..])
  }

  /** The number of bits that the two length registers announce. */
  function AnnouncedBits(length1: Byte, length2: Byte): nat {
    (ValueOf(length1) * 16 + ValueOf(length2) / 16) * 8 + (ValueOf(length2) / 2) % 8
  }
}
