/** The ROM command layer of the Tiva driver (onewire_getSlaveAddress,
    onewire_select, onewire_selectAll) and its integrity check
    (onewire_checkData). Each command is a reset, a command byte and, except
    for skip-ROM, an 8-byte address payload. */
module RomCommands {
  import opened Bits
  import opened OneWireBus
  import opened Transport

  /** The standard 1-Wire ROM command codes. */
  const READ_ROM: bv8 := 0x33
  const MATCH_ROM: bv8 := 0x55
  const SKIP_ROM: bv8 := 0xCC
  const SEARCH_ROM: bv8 := 0xF0

  /** Number of bytes in a slave address. */
  const ADDRESS_BYTES: nat := 8

  /** onewire_checkData as written: `crc` starts at 0 and the loop over the
      `len` bytes has an empty body, so the check accepts every buffer,
      whatever its contents and length. */
  function CheckData(data: seq<bv8>, len: uint8): (valid: bool)
    ensures valid
  {
    var crc: bv8 := 0;
    crc == 0
  }

  /** onewire_getSlaveAddress: reset, READ_ROM, then receive 8 bytes into
      address. When the reset finds nobody, the address is left alone and
      nothing else happens on the bus. */
  method GetSlaveAddress(bus: Bus, address: array<bv8>) returns (ok: bool)
    requires address.Length >= ADDRESS_BYTES
    modifies bus, address
    ensures ok == ResetAnswer(old(bus.resets))
    ensures bus.resets == Drop(old(bus.resets), 1)
    ensures !ok ==> (bus.trace == old(bus.trace) + [ResetPulse(false)]
                     && bus.input == old(bus.input) && address[..] == old(address[..]))
    ensures ok ==> bus.trace == old(bus.trace) + [ResetPulse(true)] + Writes(ByteBits(READ_ROM))
                                + Reads(Peek(old(bus.input), 8 * ADDRESS_BYTES))
    ensures ok ==> (address[..ADDRESS_BYTES] == BytesFrom(old(bus.input), ADDRESS_BYTES)
                    && address[ADDRESS_BYTES..] == old(address[ADDRESS_BYTES..])
                    && bus.input == Drop(old(bus.input), 8 * ADDRESS_BYTES))
  {
    ok := bus.Reset();
    if !ok {
      return;
    }
    Send(bus, READ_ROM);
    ReceiveBuffer(bus, address, ADDRESS_BYTES);
  }

  /** onewire_select: reset, MATCH_ROM, then send the 8 address bytes. */
  method Select(bus: Bus, address: array<bv8>) returns (ok: bool)
    requires address.Length >= ADDRESS_BYTES
    modifies bus
    ensures ok == ResetAnswer(old(bus.resets))
    ensures bus.resets == Drop(old(bus.resets), 1) && bus.input == old(bus.input)
    ensures !ok ==> bus.trace == old(bus.trace) + [ResetPulse(false)]
    ensures ok ==> bus.trace == old(bus.trace) + [ResetPulse(true)] + Writes(ByteBits(MATCH_ROM))
                                + Writes(BytesBits(address[..ADDRESS_BYTES]))
  {
    ok := bus.Reset();
    if !ok {
      return;
    }
    Send(bus, MATCH_ROM);
    SendBuffer(bus, address, ADDRESS_BYTES);
  }

  /** onewire_selectAll: reset, then SKIP_ROM and nothing more. */
  method SelectAll(bus: Bus) returns (ok: bool)
    modifies bus
    ensures ok == ResetAnswer(old(bus.resets))
    ensures bus.resets == Drop(old(bus.resets), 1) && bus.input == old(bus.input)
    ensures !ok ==> bus.trace == old(bus.trace) + [ResetPulse(false)]
    ensures ok ==> bus.trace == old(bus.trace) + [ResetPulse(true)] + Writes(ByteBits(SKIP_ROM))
  {
    ok := bus.Reset();
    if !ok {
      return;
    }
    Send(bus, SKIP_ROM);
  }
}
