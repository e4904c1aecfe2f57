/** Byte transport of the Tiva driver: onewire_send, onewire_receive,
    onewire_sendBuffer and onewire_receiveBuffer. Bytes travel least
    significant bit first; the buffer routines move bytes in index order. */
module Transport {
  import opened Bits
  import opened OneWireBus

  /** The n bytes that n successive onewire_receive calls assemble from the
      given read-slot levels. */
  function BytesFrom(input: seq<bool>, n: nat): seq<bv8>
  {
    seq(n, i requires 0 <= i < n => Assemble(Peek(Drop(input, 8 * i), 8)))
  }

  /** onewire_send: eight write slots, bit 0 of data first. */
  method Send(bus: Bus, data: bv8)
    modifies bus
    ensures bus.trace == old(bus.trace) + Writes(ByteBits(data))
    ensures bus.input == old(bus.input) && bus.resets == old(bus.resets)
  {
    for bit := 0 to 8
      invariant bus.trace == old(bus.trace) + Writes(ByteBits(data)[..bit])
      invariant bus.input == old(bus.input) && bus.resets == old(bus.resets)
    {
      if data & (1 << bit) != 0 {
        bus.WriteBit1();
      } else {
        bus.WriteBit0();
      }
      assert Writes(ByteBits(data)[..bit + 1]) == Writes(ByteBits(data)[..bit]) + [Write(ByteBits(data)[bit])];
    }
    assert ByteBits(data)[..8] == ByteBits(data);
  }

  /** onewire_receive: eight read slots, the k-th sampled level OR-ed in at
      bit k. */
  method Receive(bus: Bus) returns (data: bv8)
    modifies bus
    ensures data == Assemble(Peek(old(bus.input), 8))
    ensures bus.input == Drop(old(bus.input), 8) && bus.resets == old(bus.resets)
    ensures bus.trace == old(bus.trace) + Reads(Peek(old(bus.input), 8))
  {
    ghost var input := bus.input;
    data := 0;
    for bit := 0 to 8
      invariant data == Assemble(Peek(input, bit))
      invariant bus.input == Drop(input, bit) && bus.resets == old(bus.resets)
      invariant bus.trace == old(bus.trace) + Reads(Peek(input, bit))
    {
      var b := bus.ReadBit();
      BitAtDrop(input, bit, 0);
      DropDrop(input, bit, 1);
      ReceiveStep(input, bit);
      data := data | Shifted(b, bit);
    }
  }

  /** One more read slot extends the received levels and the assembled
      value by that slot's level. */
  lemma ReceiveStep(input: seq<bool>, bit: nat)
    requires bit < 8
    ensures Peek(input, bit + 1) == Peek(input, bit) + [BitAt(input, bit)]
    ensures Assemble(Peek(input, bit + 1))
         == Assemble(Peek(input, bit)) | Shifted(BitAt(input, bit), bit)
    ensures Reads(Peek(input, bit + 1)) == Reads(Peek(input, bit)) + [Read(BitAt(input, bit))]
  {
    assert Peek(input, bit + 1) == Peek(input, bit) + [BitAt(input, bit)];
    AssembleSnoc(Peek(input, bit), BitAt(input, bit));
  }

  /** onewire_sendBuffer: onewire_send for buffer[0], ..., buffer[len - 1]. */
  method SendBuffer(bus: Bus, buffer: array<bv8>, len: nat)
    requires len <= buffer.Length
    modifies bus
    ensures bus.trace == old(bus.trace) + Writes(BytesBits(buffer[..len]))
    ensures bus.input == old(bus.input) && bus.resets == old(bus.resets)
  {
    for i := 0 to len
      invariant bus.trace == old(bus.trace) + Writes(BytesBits(buffer[..i]))
      invariant bus.input == old(bus.input) && bus.resets == old(bus.resets)
    {
      Send(bus, buffer[i]);
      assert buffer[..i + 1] == buffer[..i] + [buffer[i]];
      BytesBitsSnoc(buffer[..i], buffer[i]);
    }
  }

  /** onewire_receiveBuffer: buffer[i] := onewire_receive() for i in
      0 .. len - 1; the rest of the buffer is untouched. */
  method ReceiveBuffer(bus: Bus, buffer: array<bv8>, len: nat)
    requires len <= buffer.Length
    modifies bus, buffer
    ensures buffer[..len] == BytesFrom(old(bus.input), len)
    ensures buffer[len..] == old(buffer[len..])
    ensures bus.input == Drop(old(bus.input), 8 * len) && bus.resets == old(bus.resets)
    ensures bus.trace == old(bus.trace) + Reads(Peek(old(bus.input), 8 * len))
  {
    ghost var input := bus.input;
    for i := 0 to len
      invariant buffer[..i] == BytesFrom(input, i)
      invariant buffer[len..] == old(buffer[len..])
      invariant bus.input == Drop(input, 8 * i) && bus.resets == old(bus.resets)
      invariant bus.trace == old(bus.trace) + Reads(Peek(input, 8 * i))
    {
      var d := Receive(bus);
      buffer[i] := d;
      DropDrop(input, 8 * i, 8);
      PeekSplit(input, 8 * i, 8);
      assert buffer[..i + 1] == BytesFrom(input, i + 1);
    }
  }

  /** Receiving `|bytes|` bytes from read slots that replay the bits
      onewire_sendBuffer emits for `bytes` yields `bytes`. */
  lemma {:induction false} BufferRoundTrip(bytes: seq<bv8>, rest: seq<bool>)
    ensures BytesFrom(BytesBits(bytes) + rest, |bytes|) == bytes
  {
    var input := BytesBits(bytes) + rest;
    forall i | 0 <= i < |bytes|
      ensures BytesFrom(input, |bytes|)[i] == bytes[i]
    {
      forall k | 0 <= k < 8
        ensures Peek(Drop(input, 8 * i), 8)[k] == ByteBits(bytes[i])[k]
      {
        var p := 8 * i + k;
        assert p / 8 == i && p % 8 == k;
        BitAtDrop(input, 8 * i, k);
        assert BitAt(input, p) == BytesBits(bytes)[p];
      }
      assert Peek(Drop(input, 8 * i), 8) == ByteBits(bytes[i]);
      ByteRoundTrip(bytes[i]);
    }
  }

  /** Receiving from read slots that replay the bits onewire_send emits for
      d yields d. */
  lemma {:induction false} SendReceiveRoundTrip(d: bv8, rest: seq<bool>)
    ensures Assemble(Peek(ByteBits(d) + rest, 8)) == d
  {
    PeekPrefix(ByteBits(d), rest);
    ByteRoundTrip(d);
  }
}
