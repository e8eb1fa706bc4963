/** The UART MMIO stub of src/main.cpp: a transmit-only data register at 0x00
    whose writes send one byte to the host, and a plain status register at 0x04. */
module Uart {
  import opened Base

  datatype Uart = Uart(status: u32)

  const DATA: u32 := 0x00
  const STATUS: u32 := 0x04

  /** Status on construction: transmitter ready. */
  const TX_READY: u32 := 0x01

  function Create(): (u: Uart)
    ensures Read32(u, STATUS) == 0x01
  {
    Uart(TX_READY)
  }

  /** `read32`: no receive data (0), the status register, and all ones for any
      other offset. */
  function Read32(u: Uart, offset: u32): (v: u32)
    ensures offset == DATA ==> v == 0
    ensures offset == STATUS ==> v == u.status
    ensures offset != DATA && offset != STATUS ==> v == 0xFFFF_FFFF
  {
    if offset == DATA then 0
    else if offset == STATUS then u.status
    else 0xFFFF_FFFF
  }

  /** `write32`: the new device state and the byte sent to the host, if any. */
  function Write32(u: Uart, offset: u32, value: u32): (r: (Uart, Option<u8>))
    // a data write emits exactly the low byte and leaves the status alone
    ensures offset == DATA ==> r.1 == Some(value % 0x100) && Read32(r.0, STATUS) == Read32(u, STATUS)
    // a status write is read back unchanged and emits nothing
    ensures offset == STATUS ==> Read32(r.0, STATUS) == value && r.1 == None
    // any other offset changes nothing
    ensures offset != DATA && offset != STATUS ==> r == (u, None)
    // no write changes what the data register or an unknown offset reads
    ensures forall o: u32 :: o != STATUS ==> Read32(r.0, o) == Read32(u, o)
  {
    if offset == DATA then (u, Some(value % 0x100))
    else if offset == STATUS then (u.(status := value), None)
    else (u, None)
  }

  /** A string sent byte by byte through the data register, as the bootstrap
      demo does: the final state and everything emitted. */
  function Transmit(u: Uart, text: seq<u8>): (Uart, seq<u8>)
    decreases |text|
  {
    if |text| == 0 then (u, [])
    else
      var (u1, out) := Write32(u, DATA, text[0]);
      var (u2, rest) := Transmit(u1, text[1..]);
      (u2, (if out.Some? then [out.value] else []) + rest)
  }

  /** Transmitting a string emits exactly that string and leaves the device as it was. */
  lemma {:induction false} TransmitEchoes(u: Uart, text: seq<u8>)
    ensures Transmit(u, text) == (u, text)
    decreases |text|
  {
    if |text| > 0 {
      TransmitEchoes(u, text[1..]);
      assert [text[0]] + text[1..] == text;
    }
  }

  /** Reads at the data register and at unknown offsets are fixed values,
      whatever has been written. */
  lemma ReadsOutsideStatusAreConstant(u: Uart, offset: u32)
    requires offset != STATUS
    ensures Read32(u, offset) == if offset == DATA then 0 else 0xFFFF_FFFF
  {
  }
}
