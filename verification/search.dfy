/** The ROM-search engine of the Tiva driver: onewire_initSearchRoutine,
    onewire_searchNextDevice and onewire_search.

    The first half of the module specifies one search pass as functions of
    the levels the read slots will sample (`input`), the previous pass's
    `last_conflict_bit` (`last`) and the ROM bits left by the previous pass
    (`prev`, 64 bits, bit p in byte p / 8 at bit p % 8). The second half is
    the engine itself, a class holding the three variables the driver keeps
    at file scope between calls. */
module Search {
  import opened Bits
  import opened OneWireBus
  import opened Transport
  import opened RomCommands

  /** Number of bit positions in a slave address. */
  const ROM_BITS: nat := 64

  /** Return codes of onewire_searchNextDevice. */
  const RESET_FAILED: int := 0
  const FOUND: int := 1
  const INVALID_ROM: int := 2
  const NO_MORE_DEVICES: int := 3
  const NO_RESPONSE: int := 4

  /** First and second reads of the bit-pair slot for 0-based position k:
      the AND of the active slaves' bits, then of their complements. */
  predicate BitA(input: seq<bool>, k: nat) { BitAt(input, 2 * k) }
  predicate BitB(input: seq<bool>, k: nat) { BitAt(input, 2 * k + 1) }

  /** Both reads of slot k are 1: no slave answered. */
  predicate FaultAt(input: seq<bool>, k: nat) { BitA(input, k) && BitB(input, k) }

  /** The bit the engine takes at 1-based position `index` for the answer
      pair (a, b): the agreed bit when only one value is present, otherwise
      the tie-break against `last` (1 at `last`, 0 beyond it, the bit of the
      previous pass before it). */
  predicate Choose(a: bool, b: bool, index: nat, last: nat, prev: bool)
  {
    if a || b then a
    else if index == last then true
    else if index > last then false
    else prev
  }

  /** Whether the engine moves `conflict_marker` to `index` for this pair. */
  predicate Marks(a: bool, b: bool, index: nat, last: nat, prev: bool)
  {
    !a && !b && index != last && (index > last || !prev)
  }

  /** Bit chosen at 0-based position k of a pass. */
  predicate Chosen(input: seq<bool>, last: nat, prev: seq<bool>, k: nat)
    requires k < |prev|
  {
    Choose(BitA(input, k), BitB(input, k), k + 1, last, prev[k])
  }

  /** Whether position k moves the conflict marker. */
  predicate MarkedAt(input: seq<bool>, last: nat, prev: seq<bool>, k: nat)
    requires k < |prev|
  {
    Marks(BitA(input, k), BitB(input, k), k + 1, last, prev[k])
  }

  /** Position k is a genuine collision (both reads 0) that was resolved by
      taking the 0 branch: the 1 branch is left for a later pass. */
  predicate ZeroCollision(input: seq<bool>, last: nat, prev: seq<bool>, k: nat)
    requires k < |prev|
  {
    !BitA(input, k) && !BitB(input, k) && !Chosen(input, last, prev, k)
  }

  /** The ROM bits after the first n positions of a pass. */
  function Walked(input: seq<bool>, last: nat, prev: seq<bool>, n: nat): seq<bool>
    requires n <= |prev| == ROM_BITS
  {
    seq(ROM_BITS, p requires 0 <= p < ROM_BITS => if p < n then Chosen(input, last, prev, p) else prev[p])
  }

  /** `conflict_marker` after the first n positions of a pass. */
  function Marker(input: seq<bool>, last: nat, prev: seq<bool>, n: nat): nat
    requires n <= |prev|
  {
    if n == 0 then 0
    else if MarkedAt(input, last, prev, n - 1) then n
    else Marker(input, last, prev, n - 1)
  }

  /** The slots of the first n positions of a pass: read, read, write back. */
  function PassTrace(input: seq<bool>, last: nat, prev: seq<bool>, n: nat): seq<Event>
    requires n <= |prev|
  {
    if n == 0 then []
    else PassTrace(input, last, prev, n - 1)
         + [Read(BitA(input, n - 1)), Read(BitB(input, n - 1)), Write(Chosen(input, last, prev, n - 1))]
  }

  /** The number of positions from k on that complete before the first
      fault, counted from 0. */
  function ReachFrom(input: seq<bool>, k: nat): (r: nat)
    requires k <= ROM_BITS
    ensures k <= r <= ROM_BITS
    ensures r < ROM_BITS ==> FaultAt(input, r)
    decreases ROM_BITS - k
  {
    if k == ROM_BITS then ROM_BITS
    else if FaultAt(input, k) then k
    else ReachFrom(input, k + 1)
  }

  /** Position of the first fault of a pass, or 64 when the pass completes. */
  function Reach(input: seq<bool>): nat
  {
    ReachFrom(input, 0)
  }

  /** No position between k and the first fault from k faults. */
  lemma {:induction false} NoFaultBefore(input: seq<bool>, k: nat, j: nat)
    requires k <= ROM_BITS && k <= j < ReachFrom(input, k)
    ensures !FaultAt(input, j)
    decreases ROM_BITS - k
  {
    if j > k {
      NoFaultBefore(input, k + 1, j);
    }
  }

  /** A pass that has not faulted before position k stops at k when k
      faults. */
  lemma ReachAt(input: seq<bool>, k: nat)
    requires k < ROM_BITS && FaultAt(input, k) && k <= Reach(input)
    ensures Reach(input) == k
  {
    if k < Reach(input) {
      NoFaultBefore(input, 0, k);
    }
  }

  /** A pass that has not faulted before position k and does not fault at k
      gets past k. */
  lemma ReachPast(input: seq<bool>, k: nat)
    requires k < ROM_BITS && !FaultAt(input, k) && k <= Reach(input)
    ensures k + 1 <= Reach(input)
  {
  }

  /** Regrouping a trace that grew by a, then b, then c. */
  lemma AppendRegroup(t: seq<Event>, a: seq<Event>, b: seq<Event>, c: seq<Event>)
    ensures t + a + b + c == t + (a + b) + c
  {
  }

  /** What a pass emits before its bit-pair loop: a successful reset and
      the SEARCH_ROM command. */
  function SearchStart(): seq<Event>
  {
    [ResetPulse(true)] + Writes(ByteBits(SEARCH_ROM))
  }

  /** The conflict marker is the highest position whose collision was
      resolved to 0, or 0 when there was none. */
  lemma {:induction false} MarkerIsHighest(input: seq<bool>, last: nat, prev: seq<bool>, n: nat)
    requires n <= |prev|
    ensures Marker(input, last, prev, n) <= n
    ensures Marker(input, last, prev, n) == 0 <==>
              forall j :: 0 <= j < n ==> !ZeroCollision(input, last, prev, j)
    ensures Marker(input, last, prev, n) > 0 ==>
              ZeroCollision(input, last, prev, Marker(input, last, prev, n) - 1)
    ensures forall j :: Marker(input, last, prev, n) <= j < n ==> !ZeroCollision(input, last, prev, j)
  {
    if n > 0 {
      MarkerIsHighest(input, last, prev, n - 1);
      assert MarkedAt(input, last, prev, n - 1) <==> ZeroCollision(input, last, prev, n - 1);
    }
  }

  /** A collision at the position saved from the previous pass is never
      saved again: that position is now explored on its 1 branch. */
  lemma {:induction false} MarkerNeverLast(input: seq<bool>, last: nat, prev: seq<bool>, n: nat)
    requires n <= |prev| && last > 0
    ensures Marker(input, last, prev, n) != last
  {
    if n > 0 {
      MarkerNeverLast(input, last, prev, n - 1);
    }
  }

  /** In the slots of a pass, the bit written back at position k is the bit
      left in the ROM buffer at position k, right after the two reads. */
  lemma {:induction false} WrittenBitIsRomBit(input: seq<bool>, last: nat, prev: seq<bool>, n: nat, k: nat)
    requires k < n <= |prev| == ROM_BITS
    ensures |PassTrace(input, last, prev, n)| == 3 * n
    ensures PassTrace(input, last, prev, n)[3 * k] == Read(BitA(input, k))
    ensures PassTrace(input, last, prev, n)[3 * k + 1] == Read(BitB(input, k))
    ensures PassTrace(input, last, prev, n)[3 * k + 2] == Write(Walked(input, last, prev, n)[k])
  {
    PassTraceLength(input, last, prev, n - 1);
    if k < n - 1 {
      WrittenBitIsRomBit(input, last, prev, n - 1, k);
    }
  }

  /** A pass that got through n positions used three slots for each. */
  lemma {:induction false} PassTraceLength(input: seq<bool>, last: nat, prev: seq<bool>, n: nat)
    requires n <= |prev|
    ensures |PassTrace(input, last, prev, n)| == 3 * n
  {
    if n > 0 {
      PassTraceLength(input, last, prev, n - 1);
    }
  }

  /** The read-slot levels one slave with address bits `rom` produces during
      a pass in which it stays selected: each bit, then its complement. */
  function SlaveAnswers(rom: seq<bool>): seq<bool>
    requires |rom| == ROM_BITS
  {
    seq(2 * ROM_BITS, i requires 0 <= i < 2 * ROM_BITS => if i % 2 == 0 then rom[i / 2] else !rom[i / 2])
  }

  /** With exactly one slave on the bus, a pass completes, rebuilds that
      slave's address bits and leaves no conflict, so the engine records
      that the last device was found. */
  lemma {:induction false} SingleSlavePass(rom: seq<bool>, rest: seq<bool>, last: nat, prev: seq<bool>)
    requires |rom| == ROM_BITS && |prev| == ROM_BITS
    ensures Reach(SlaveAnswers(rom) + rest) == ROM_BITS
    ensures Walked(SlaveAnswers(rom) + rest, last, prev, ROM_BITS) == rom
    ensures Marker(SlaveAnswers(rom) + rest, last, prev, ROM_BITS) == 0
  {
    var input := SlaveAnswers(rom) + rest;
    forall k | 0 <= k < ROM_BITS
      ensures BitA(input, k) == rom[k] && BitB(input, k) == !rom[k]
    {
      assert input[2 * k] == SlaveAnswers(rom)[2 * k];
      assert input[2 * k + 1] == SlaveAnswers(rom)[2 * k + 1];
    }
    forall k | 0 <= k < ROM_BITS
      ensures !FaultAt(input, k) && !ZeroCollision(input, last, prev, k)
      ensures Walked(input, last, prev, ROM_BITS)[k] == rom[k]
    {
    }
    MarkerIsHighest(input, last, prev, ROM_BITS);
  }

  /** With exactly one slave on the bus, the 8 ROM bytes a completed pass
      leaves are that slave's address. */
  lemma {:induction false} SingleSlaveAddress(address: seq<bv8>, rest: seq<bool>, last: nat, prev: seq<bool>, rom: seq<bv8>)
    requires |address| == 8 && |prev| == ROM_BITS && |rom| == 8
    requires BytesBits(rom) == Walked(SlaveAnswers(BytesBits(address)) + rest, last, prev, ROM_BITS)
    ensures rom == address
  {
    SingleSlavePass(BytesBits(address), rest, last, prev);
    BytesBitsInjective(rom, address);
  }

  /** One position of a pass, from the ROM bits and the marker before it
      to those after it: the chosen bit replaces bit k and a 0-resolved
      collision moves the marker to k + 1. */
  lemma PassAdvance(input: seq<bool>, last: nat, prev: seq<bool>, k: nat, bits: seq<bool>, marker: nat)
    requires k < |prev| == ROM_BITS
    requires bits == Walked(input, last, prev, k) && marker == Marker(input, last, prev, k)
    ensures Choose(BitA(input, k), BitB(input, k), k + 1, last, bits[k]) == Chosen(input, last, prev, k)
    ensures bits[k := Chosen(input, last, prev, k)] == Walked(input, last, prev, k + 1)
    ensures (if Marks(BitA(input, k), BitB(input, k), k + 1, last, bits[k]) then k + 1 else marker)
            == Marker(input, last, prev, k + 1)
  {
  }

  /** The trace of a pass grows by the two reads and the write-back of
      position k. */
  lemma TraceStep(input: seq<bool>, last: nat, prev: seq<bool>, k: nat, start: seq<Event>,
                  t0: seq<Event>, t1: seq<Event>, t2: seq<Event>, t3: seq<Event>)
    requires k < |prev|
    requires t0 == start + PassTrace(input, last, prev, k)
    requires t1 == t0 + [Read(BitA(input, k))] && t2 == t1 + [Read(BitB(input, k))]
    requires t3 == t2 + [Write(Chosen(input, last, prev, k))]
    ensures t3 == start + PassTrace(input, last, prev, k + 1)
  {
  }

  /** The trace of a pass that faults at position k ends with its two
      reads. */
  lemma TraceFault(input: seq<bool>, last: nat, prev: seq<bool>, k: nat, start: seq<Event>,
                   t0: seq<Event>, t1: seq<Event>, t2: seq<Event>)
    requires k <= |prev|
    requires t0 == start + PassTrace(input, last, prev, k)
    requires t1 == t0 + [Read(true)] && t2 == t1 + [Read(true)]
    ensures t2 == start + PassTrace(input, last, prev, k) + [Read(true), Read(true)]
  {
  }

  /** The levels the two reads of slot k sample, and what is left after. */
  lemma PairSlots(input: seq<bool>, k: nat)
    ensures BitAt(Drop(input, 2 * k), 0) == BitA(input, k)
    ensures BitAt(Drop(Drop(input, 2 * k), 1), 0) == BitB(input, k)
    ensures Drop(Drop(Drop(input, 2 * k), 1), 1) == Drop(input, 2 * k + 2)
  {
    BitAtDrop(input, 2 * k, 0);
    DropDrop(input, 2 * k, 1);
    BitAtDrop(input, 2 * k + 1, 0);
    DropDrop(input, 2 * k + 1, 1);
  }

  /** Byte d with bit m set to v, as `d |= (1 << m)` or `d &= ~(1 << m)`. */
  function PutByteBit(d: bv8, m: nat, v: bool): bv8
    requires m < 8
  {
    if v then d | (1 << m) else d & !(1 << m)
  }

  /** PutByteBit changes bit m of the byte and nothing else. */
  lemma PutByteBitAt(d: bv8, m: nat, v: bool, n: nat)
    requires m < 8 && n < 8
    ensures BitOf(PutByteBit(d, m, v), n) == if n == m then v else BitOf(d, n)
  {
    if v {
      SetBit(d, m, n);
    } else {
      ClearBit(d, m, n);
    }
  }

  /** Writing bit v into position p of an 8-byte buffer: byte p / 8, bit p % 8. */
  function PutBit(r: seq<bv8>, p: nat, v: bool): seq<bv8>
    requires p < 8 * |r|
  {
    r[p / 8 := PutByteBit(r[p / 8], p % 8, v)]
  }

  /** Two bit positions are equal exactly when their byte and bit indices are. */
  lemma SamePosition(p: nat, q: nat)
    ensures q == p <==> q / 8 == p / 8 && q % 8 == p % 8
  {
  }

  /** Bit q of the buffer after PutBit(r, p, v). */
  lemma PutBitAt(r: seq<bv8>, p: nat, v: bool, q: nat)
    requires p < 8 * |r| && q < 8 * |r|
    ensures BitOf(PutBit(r, p, v)[q / 8], q % 8) == if q == p then v else BitOf(r[q / 8], q % 8)
  {
    SamePosition(p, q);
    if q / 8 == p / 8 {
      PutByteBitAt(r[p / 8], p % 8, v, q % 8);
    }
  }


  /** PutBit changes position p of the bit view and nothing else. */
  lemma {:induction false} PutBitView(r: seq<bv8>, p: nat, v: bool)
    requires p < 8 * |r|
    ensures BytesBits(PutBit(r, p, v)) == BytesBits(r)[p := v]
  {
    forall q | 0 <= q < 8 * |r|
      ensures BytesBits(PutBit(r, p, v))[q] == BytesBits(r)[p := v][q]
    {
      PutBitAt(r, p, v, q);
    }
  }

  /** Everything one call of onewire_searchNextDevice reads or changes,
      as a value: the engine's three file-scope variables (the ROM as its
      eight bytes) and the bus's recorded answers and trace. */
  datatype Engine = Engine(last: nat, flag: bool, rom: seq<bv8>,
                           resets: seq<ResetSlot>, input: seq<bool>, trace: seq<Event>)

  /** A return code and the state it leaves. */
  datatype Outcome = Outcome(status: int, after: Engine)

  /** The invariant the engine keeps between calls. */
  predicate Sane(e: Engine)
  {
    |e.rom| == ADDRESS_BYTES && e.last <= ROM_BITS && (e.flag ==> e.last == 0)
  }

  /** onewire_initSearchRoutine on a state. */
  function Restart(e: Engine): (r: Engine)
    ensures Sane(r)
  {
    e.(last := 0, flag := false, rom := seq(ADDRESS_BYTES, _ => 0))
  }

  /** One call of onewire_searchNextDevice as a function of the state it
      starts from. */
  function NextSpec(e: Engine): (r: Outcome)
    requires |e.rom| == ADDRESS_BYTES
    ensures Sane(e) ==> Sane(r.after)
    ensures r.status != INVALID_ROM
    ensures r.status == NO_MORE_DEVICES <==> e.flag
    ensures r.status == FOUND ==> r.after.flag == (r.after.last == 0)
  {
    if e.flag then Outcome(NO_MORE_DEVICES, e.(flag := false))
    else if !ResetAnswer(e.resets) then
      Outcome(RESET_FAILED, e.(resets := Drop(e.resets, 1), trace := e.trace + [ResetPulse(false)]))
    else
      var prev, f := BytesBits(e.rom), Reach(e.input);
      if f < ROM_BITS then
        Outcome(NO_RESPONSE,
                Engine(0, false, BitsBytes(Walked(e.input, e.last, prev, f)), Drop(e.resets, 1),
                       Drop(e.input, 2 * f + 2),
                       e.trace + SearchStart() + PassTrace(e.input, e.last, prev, f) + [Read(true), Read(true)]))
      else
        var m, rom := Marker(e.input, e.last, prev, ROM_BITS), BitsBytes(Walked(e.input, e.last, prev, ROM_BITS));
        MarkerIsHighest(e.input, e.last, prev, ROM_BITS);
        Outcome(if CheckData(rom, 8) then FOUND else INVALID_ROM,
                Engine(m, m == 0, rom, Drop(e.resets, 1), Drop(e.input, 2 * ROM_BITS),
                       e.trace + SearchStart() + PassTrace(e.input, e.last, prev, ROM_BITS)))
  }

  /** The state the call after the first k of a trail starts from. */
  function Before(start: Engine, outs: seq<Outcome>, k: nat): Engine
    requires k <= |outs|
  {
    if k == 0 then start else outs[k - 1].after
  }

  /** Call k of a trail is a call of onewire_searchNextDevice from the state
      the calls before it left. */
  ghost predicate Follows(start: Engine, outs: seq<Outcome>, k: nat)
    requires k < |outs|
  {
    |Before(start, outs, k).rom| == ADDRESS_BYTES && outs[k] == NextSpec(Before(start, outs, k))
  }

  /** `outs` are the outcomes of successive calls from `start`. */
  ghost predicate Trail(start: Engine, outs: seq<Outcome>)
  {
    forall k :: 0 <= k < |outs| ==> Follows(start, outs, k)
  }

  /** A trail grows by the outcome of a call from the state it left. */
  lemma TrailSnoc(start: Engine, outs: seq<Outcome>, o: Outcome)
    requires Trail(start, outs)
    requires |Before(start, outs, |outs|).rom| == ADDRESS_BYTES && o == NextSpec(Before(start, outs, |outs|))
    ensures Trail(start, outs + [o])
  {
    var grown := outs + [o];
    forall k | 0 <= k < |grown|
      ensures Follows(start, grown, k)
    {
      if k < |outs| {
        assert Follows(start, outs, k);
        assert grown[k] == outs[k] && Before(start, grown, k) == Before(start, outs, k);
      } else {
        assert Before(start, grown, k) == Before(start, outs, |outs|);
      }
    }
  }

  /** Two trails from the same state agree on every call they share: the
      outcomes are determined by the state the session starts from. */
  lemma {:induction false} TrailDetermined(start: Engine, a: seq<Outcome>, b: seq<Outcome>, k: nat)
    requires Trail(start, a) && Trail(start, b) && k <= |a| && k <= |b|
    ensures a[..k] == b[..k]
  {
    if k > 0 {
      TrailDetermined(start, a, b, k - 1);
      assert Before(start, a, k - 1) == Before(start, b, k - 1) by {
        if k > 1 {
          assert a[k - 2] == a[..k - 1][k - 2] == b[..k - 1][k - 2] == b[k - 2];
        }
      }
      assert Follows(start, a, k - 1) && Follows(start, b, k - 1);
      assert a[..k] == a[..k - 1] + [a[k - 1]] && b[..k] == b[..k - 1] + [b[k - 1]];
    }
  }

  /** The first call of a session never reports "no more devices":
      onewire_initSearchRoutine clears the flag before it. */
  lemma SessionStartsFresh(e: Engine, outs: seq<Outcome>)
    requires Trail(Restart(e), outs) && outs != []
    ensures outs[0].status != NO_MORE_DEVICES
  {
    assert Follows(Restart(e), outs, 0);
  }

  /** After a call that finds a device, the next call reports "no more
      devices" exactly when that pass saw no collision resolved to 0; it then
      changes nothing but the flag, so the call after it sweeps the tree
      again from position 0. */
  lemma FoundThenDone(start: Engine, outs: seq<Outcome>, k: nat)
    requires Trail(start, outs) && k + 1 < |outs| && outs[k].status == FOUND
    ensures outs[k + 1].status == NO_MORE_DEVICES <==> outs[k].after.last == 0
    ensures outs[k + 1].status == NO_MORE_DEVICES ==>
              outs[k + 1].after == outs[k].after.(flag := false)
  {
    assert Follows(start, outs, k) && Follows(start, outs, k + 1);
  }

  /** The ROM bytes each outcome leaves, one after another. */
  function Roms(run: seq<Outcome>): (bs: seq<bv8>)
    requires forall i :: 0 <= i < |run| ==> |run[i].after.rom| == ADDRESS_BYTES
    ensures |bs| == ADDRESS_BYTES * |run|
  {
    if run == [] then [] else Roms(run[..|run| - 1]) + run[|run| - 1].after.rom
  }

  class SearchState {
    var lastConflictBit: nat       // last_conflict_bit (a uint8 holding 0..64)
    var isLastDeviceFound: bool    // is_last_device_found
    const rom: array<bv8>          // ROM[8]

    ghost predicate Valid()
      reads this
    {
      rom.Length == 8 && lastConflictBit <= ROM_BITS &&
      (isLastDeviceFound ==> lastConflictBit == 0)
    }

    /** The ROM buffer as 64 bits. */
    ghost function RomBits(): seq<bool>
      reads this, rom
      requires Valid()
    {
      BytesBits(rom[..])
    }

    /** The engine and the bus it drives, as a value. */
    ghost function Snapshot(bus: Bus): Engine
      reads this, rom, bus
    {
      Engine(lastConflictBit, isLastDeviceFound, rom[..], bus.resets, bus.input, bus.trace)
    }

    /** Static storage starts zeroed. */
    constructor ()
      ensures Valid() && fresh(rom)
      ensures lastConflictBit == 0 && !isLastDeviceFound && rom[..] == [0, 0, 0, 0, 0, 0, 0, 0]
    {
      lastConflictBit := 0;
      isLastDeviceFound := false;
      rom := new bv8[8](_ => 0);
    }

    /** onewire_initSearchRoutine: start a fresh discovery session. */
    method InitSearchRoutine()
      requires Valid()
      modifies this, rom
      ensures Valid()
      ensures lastConflictBit == 0 && !isLastDeviceFound && rom[..] == [0, 0, 0, 0, 0, 0, 0, 0]
    {
      lastConflictBit := 0;
      isLastDeviceFound := false;
      for i := 0 to 8
        modifies rom
        invariant forall j :: 0 <= j < i ==> rom[j] == 0
      {
        rom[i] := 0;
      }
    }

    /** `ROM[index / 8] |= (1 << (index % 8))`: set ROM bit `index`. */
    method SetRomBit(index: nat)
      requires Valid() && index < ROM_BITS
      modifies rom
      ensures RomBits() == old(RomBits())[index := true]
    {
      rom[index / 8] := rom[index / 8] | (1 << (index % 8));
      PutBitView(old(rom[..]), index, true);
    }

    /** `ROM[index / 8] &= ~(1 << (index % 8))`: clear ROM bit `index`. */
    method ClearRomBit(index: nat)
      requires Valid() && index < ROM_BITS
      modifies rom
      ensures RomBits() == old(RomBits())[index := false]
    {
      rom[index / 8] := rom[index / 8] & !(1 << (index % 8));
      PutBitView(old(rom[..]), index, false);
    }

    /** `ROM[index / 8] & (1 << (index % 8))`, as a truth value. */
    predicate RomBitAt(index: nat)
      reads this, rom
      requires Valid() && index < ROM_BITS
      ensures RomBitAt(index) == RomBits()[index]
    {
      rom[index / 8] & (1 << (index % 8)) != 0
    }

    /** The body of the bit-pair loop of onewire_searchNextDevice once the
        pair (bitA, bitB) is known not to be (1, 1): store the chosen bit at
        position `bitIndex` (1-based) of ROM, write it back to the bus and
        move `conflict_marker` for a collision resolved to 0. */
    method ResolvePair(bus: Bus, bitIndex: nat, bitA: bool, bitB: bool, conflictMarker: nat) returns (marker: nat)
      requires Valid() && 1 <= bitIndex <= ROM_BITS && !(bitA && bitB)
      modifies rom, bus
      ensures Valid()
      ensures var c := Choose(bitA, bitB, bitIndex, lastConflictBit, old(RomBits())[bitIndex - 1]);
              RomBits() == old(RomBits())[bitIndex - 1 := c] &&
              bus.trace == old(bus.trace) + [Write(c)]
      ensures marker == if Marks(bitA, bitB, bitIndex, lastConflictBit, old(RomBits())[bitIndex - 1])
                        then bitIndex else conflictMarker
      ensures bus.input == old(bus.input) && bus.resets == old(bus.resets)
      // below the saved conflict a (0, 0) pair replays the ROM bit untouched
      ensures !bitA && !bitB && bitIndex < lastConflictBit ==> rom[..] == old(rom[..])
    {
      marker := conflictMarker;
      var tmpBitIndex := bitIndex - 1;
      if bitA || bitB {
        if bitA {
          SetRomBit(tmpBitIndex);
          bus.WriteBit1();
        } else {
          ClearRomBit(tmpBitIndex);
          bus.WriteBit0();
        }
      } else {
        if bitIndex == lastConflictBit {
          SetRomBit(tmpBitIndex);
          bus.WriteBit1();
        } else if bitIndex > lastConflictBit {
          marker := bitIndex;
          ClearRomBit(tmpBitIndex);
          bus.WriteBit0();
        } else {
          var oldBitValue := RomBitAt(tmpBitIndex);
          if !oldBitValue {
            marker := bitIndex;
            bus.WriteBit0();
          } else {
            bus.WriteBit1();
          }
        }
      }
    }

    /** One iteration of the bit-pair loop of onewire_searchNextDevice at
        1-based position `bitIndex`: read the pair, stop on (1, 1), resolve
        it otherwise. The ghost parameters name the pass it belongs to: the
        read levels, the ROM bits and the trace as they were when the loop
        started. */
    method PassPosition(bus: Bus, bitIndex: nat, conflictMarker: nat,
                        ghost input: seq<bool>, ghost prev: seq<bool>, ghost start: seq<Event>)
      returns (fault: bool, marker: nat)
      requires Valid() && |prev| == ROM_BITS && 1 <= bitIndex <= ROM_BITS && bitIndex - 1 <= Reach(input)
      requires RomBits() == Walked(input, lastConflictBit, prev, bitIndex - 1)
      requires conflictMarker == Marker(input, lastConflictBit, prev, bitIndex - 1)
      requires bus.input == Drop(input, 2 * (bitIndex - 1))
      requires bus.trace == start + PassTrace(input, lastConflictBit, prev, bitIndex - 1)
      modifies rom, bus
      ensures Valid() && bus.resets == old(bus.resets) && bus.input == Drop(input, 2 * bitIndex)
      ensures fault == FaultAt(input, bitIndex - 1)
      ensures fault ==>
                Reach(input) == bitIndex - 1 && RomBits() == old(RomBits()) &&
                bus.trace == start + PassTrace(input, lastConflictBit, prev, bitIndex - 1) + [Read(true), Read(true)]
      ensures !fault ==>
                bitIndex <= Reach(input) &&
                RomBits() == Walked(input, lastConflictBit, prev, bitIndex) &&
                marker == Marker(input, lastConflictBit, prev, bitIndex) &&
                bus.trace == start + PassTrace(input, lastConflictBit, prev, bitIndex)
    {
      ghost var k := bitIndex - 1;
      ghost var t0 := bus.trace;
      PairSlots(input, k);
      var bitA := bus.ReadBit();
      ghost var t1 := bus.trace;
      var bitB := bus.ReadBit();
      ghost var t2 := bus.trace;
      if bitA && bitB {
        ReachAt(input, k);
        TraceFault(input, lastConflictBit, prev, k, start, t0, t1, t2);
        return true, conflictMarker;
      }
      ReachPast(input, k);
      PassAdvance(input, lastConflictBit, prev, k, RomBits(), conflictMarker);
      fault := false;
      marker := ResolvePair(bus, bitIndex, bitA, bitB, conflictMarker);
      TraceStep(input, lastConflictBit, prev, k, start, t0, t1, t2, bus.trace);
    }

    /** The bit-pair loop of onewire_searchNextDevice (bit_index running from
        1 to 64). `fault` says the loop returned early on a (1, 1) pair. */
    method SearchPass(bus: Bus) returns (fault: bool, conflictMarker: nat)
      requires Valid()
      modifies rom, bus
      ensures Valid() && bus.resets == old(bus.resets)
      ensures fault == (Reach(old(bus.input)) < ROM_BITS)
      ensures var input, last, prev, f := old(bus.input), lastConflictBit, old(RomBits()), Reach(old(bus.input));
              fault ==>
                RomBits() == Walked(input, last, prev, f) &&
                bus.trace == old(bus.trace) + PassTrace(input, last, prev, f) + [Read(true), Read(true)] &&
                bus.input == Drop(input, 2 * f + 2)
      ensures var input, last, prev := old(bus.input), lastConflictBit, old(RomBits());
              !fault ==>
                RomBits() == Walked(input, last, prev, ROM_BITS) &&
                conflictMarker == Marker(input, last, prev, ROM_BITS) &&
                bus.trace == old(bus.trace) + PassTrace(input, last, prev, ROM_BITS) &&
                bus.input == Drop(input, 2 * ROM_BITS)
    {
      ghost var input, prev, start := bus.input, RomBits(), bus.trace;
      fault := false;
      var bitIndex := 1;
      conflictMarker := 0;
      while bitIndex <= ROM_BITS
        invariant 1 <= bitIndex <= ROM_BITS + 1 && bitIndex - 1 <= Reach(input)
        invariant Valid() && bus.resets == old(bus.resets)
        invariant RomBits() == Walked(input, lastConflictBit, prev, bitIndex - 1)
        invariant conflictMarker == Marker(input, lastConflictBit, prev, bitIndex - 1)
        invariant bus.input == Drop(input, 2 * (bitIndex - 1))
        invariant bus.trace == start + PassTrace(input, lastConflictBit, prev, bitIndex - 1)
      {
        fault, conflictMarker := PassPosition(bus, bitIndex, conflictMarker, input, prev, start);
        if fault {
          return;
        }
        bitIndex := bitIndex + 1;
      }
    }

    /** The end of a completed onewire_searchNextDevice pass: save the
        conflict marker, raise the last-device flag when it is 0, and, when
        the ROM passes onewire_checkData, copy it into
        address[at .. at + 8]. */
    method ConcludePass(conflictMarker: nat, address: array<bv8>, at: nat) returns (status: int)
      requires Valid() && !isLastDeviceFound && conflictMarker <= ROM_BITS
      requires address != rom && at + ADDRESS_BYTES <= address.Length
      modifies this, address
      ensures Valid() && rom[..] == old(rom[..])
      ensures lastConflictBit == conflictMarker
      ensures isLastDeviceFound == (conflictMarker == 0)
      ensures status == (if CheckData(rom[..], 8) then FOUND else INVALID_ROM)
      ensures status == FOUND ==>
                address[at..at + ADDRESS_BYTES] == rom[..] &&
                address[..at] == old(address[..at]) &&
                address[at + ADDRESS_BYTES..] == old(address[at + ADDRESS_BYTES..])
      ensures status != FOUND ==> address[..] == old(address[..])
    {
      lastConflictBit := conflictMarker;
      if lastConflictBit == 0 {
        isLastDeviceFound := true;
      }
      if CheckData(rom[..], 8) {
        for i := 0 to 8
          modifies address
          invariant address[at..at + i] == rom[..i]
          invariant address[..at] == old(address[..at])
          invariant address[at + ADDRESS_BYTES..] == old(address[at + ADDRESS_BYTES..])
        {
          address[at + i] := rom[i];
        }
        return FOUND;
      } else {
        return INVALID_ROM;
      }
    }

    /** onewire_searchNextDevice: one search pass, storing the address found
        into address[at .. at + 8] only when it returns FOUND. */
    method NextDevice(bus: Bus, address: array<bv8>, at: nat) returns (status: int)
      requires Valid() && address != rom && at + ADDRESS_BYTES <= address.Length
      modifies this, rom, bus, address
      ensures Valid()
      ensures status != INVALID_ROM
      ensures NextSpec(old(Snapshot(bus))) == Outcome(status, Snapshot(bus))
      ensures status != FOUND ==> address[..] == old(address[..])
      ensures status == FOUND ==>
                address[at..at + ADDRESS_BYTES] == rom[..] &&
                address[..at] == old(address[..at]) &&
                address[at + ADDRESS_BYTES..] == old(address[at + ADDRESS_BYTES..])
      // the previous pass found the last device: report it and clear the flag
      ensures old(isLastDeviceFound) ==>
                status == NO_MORE_DEVICES && !isLastDeviceFound &&
                lastConflictBit == old(lastConflictBit) && rom[..] == old(rom[..]) &&
                bus.trace == old(bus.trace) && bus.input == old(bus.input) && bus.resets == old(bus.resets)
      ensures !old(isLastDeviceFound) ==> bus.resets == Drop(old(bus.resets), 1)
      // nobody answered the reset
      ensures !old(isLastDeviceFound) && !ResetAnswer(old(bus.resets)) ==>
                status == RESET_FAILED && !isLastDeviceFound &&
                lastConflictBit == old(lastConflictBit) && rom[..] == old(rom[..]) &&
                bus.trace == old(bus.trace) + [ResetPulse(false)] && bus.input == old(bus.input)
      // a slot answered (1, 1): abandon the pass
      ensures !old(isLastDeviceFound) && ResetAnswer(old(bus.resets)) && Reach(old(bus.input)) < ROM_BITS ==>
                var input, last, prev, f := old(bus.input), old(lastConflictBit), old(RomBits()), Reach(old(bus.input));
                status == NO_RESPONSE && lastConflictBit == 0 && !isLastDeviceFound &&
                RomBits() == Walked(input, last, prev, f) &&
                bus.trace == old(bus.trace) + SearchStart() + PassTrace(input, last, prev, f) + [Read(true), Read(true)] &&
                bus.input == Drop(input, 2 * f + 2)
      // a completed pass
      ensures !old(isLastDeviceFound) && ResetAnswer(old(bus.resets)) && Reach(old(bus.input)) == ROM_BITS ==>
                var input, last, prev := old(bus.input), old(lastConflictBit), old(RomBits());
                RomBits() == Walked(input, last, prev, ROM_BITS) &&
                lastConflictBit == Marker(input, last, prev, ROM_BITS) &&
                isLastDeviceFound == (lastConflictBit == 0) &&
                status == (if CheckData(rom[..], 8) then FOUND else INVALID_ROM) &&
                bus.trace == old(bus.trace) + SearchStart() + PassTrace(input, last, prev, ROM_BITS) &&
                bus.input == Drop(input, 2 * ROM_BITS)
    {
      if isLastDeviceFound {
        isLastDeviceFound := false;
        return NO_MORE_DEVICES;
      }
      var present := bus.Reset();
      if !present {
        return RESET_FAILED;
      }
      Send(bus, SEARCH_ROM);

      ghost var input, prev := bus.input, RomBits();
      var fault, conflictMarker := SearchPass(bus);
      BitsBytesOf(rom[..]);
      AppendRegroup(old(bus.trace), [ResetPulse(true)], Writes(ByteBits(SEARCH_ROM)),
                    PassTrace(input, lastConflictBit, prev, Reach(input)));
      if fault {
        lastConflictBit := 0;
        return NO_RESPONSE;
      }
      MarkerIsHighest(input, lastConflictBit, prev, ROM_BITS);
      status := ConcludePass(conflictMarker, address, at);
    }

    /** One round of the loop in onewire_search: the call to
        onewire_searchNextDevice storing into slot `counter`, with what it adds
        to the outcomes recorded so far. */
    method SearchRound(bus: Bus, addressBox: array<bv8>, counter: nat, ghost start: Engine, ghost outs: seq<Outcome>)
      returns (status: int, ghost outs': seq<Outcome>)
      requires Valid() && addressBox != rom && ADDRESS_BYTES * counter + ADDRESS_BYTES <= addressBox.Length
      requires Trail(start, outs) && Snapshot(bus) == Before(start, outs, |outs|) && |outs| == counter
      requires forall j :: 0 <= j < |outs| ==> outs[j].status == FOUND && |outs[j].after.rom| == ADDRESS_BYTES
      requires addressBox[..ADDRESS_BYTES * counter] == Roms(outs)
      modifies this, rom, bus, addressBox
      ensures Valid()
      ensures Trail(start, outs') && outs' == outs + [Outcome(status, Snapshot(bus))]
      ensures forall j :: 0 <= j < |outs'| ==> |outs'[j].after.rom| == ADDRESS_BYTES
      ensures Snapshot(bus) == Before(start, outs', |outs'|)
      ensures status == FOUND ==> addressBox[..ADDRESS_BYTES * counter + ADDRESS_BYTES] == Roms(outs')
      ensures forall j :: ADDRESS_BYTES * counter + ADDRESS_BYTES <= j < addressBox.Length ==> addressBox[j] == old(addressBox[j])
      ensures status != FOUND ==> addressBox[..] == old(addressBox[..])
    {
      ghost var before := Snapshot(bus);
      status := NextDevice(bus, addressBox, ADDRESS_BYTES * counter);
      ghost var o := Outcome(status, Snapshot(bus));
      assert NextSpec(before) == o;
      outs' := outs + [o];
      TrailSnoc(start, outs, o);
      if status == FOUND {
        assert outs'[..|outs|] == outs;
        assert addressBox[..ADDRESS_BYTES * counter + ADDRESS_BYTES]
            == addressBox[..ADDRESS_BYTES * counter] + addressBox[ADDRESS_BYTES * counter..ADDRESS_BYTES * counter + ADDRESS_BYTES];
      }
    }

    /** onewire_search: start a session and call onewire_searchNextDevice up
        to `number` times, storing the k-th address found in
        addressBox[8 * k .. 8 * k + 8]; stop at the first call that does not
        find a device. `outs` are the outcomes of the calls made, in order,
        which the restarted state determines (TrailDetermined). */
    method Search(bus: Bus, addressBox: array<bv8>, number: uint8)
      returns (counter: uint8, ghost outs: seq<Outcome>)
      requires Valid() && addressBox != rom && ADDRESS_BYTES * number <= addressBox.Length
      modifies this, rom, bus, addressBox
      ensures Valid()
      ensures counter <= number
      ensures Trail(Restart(old(Snapshot(bus))), outs)
      ensures |outs| == if counter < number then counter + 1 else counter
      ensures forall i :: 0 <= i < counter ==> outs[i].status == FOUND
      ensures counter < number ==> outs[counter].status != FOUND
      ensures forall j :: 0 <= j < |outs| ==> |outs[j].after.rom| == ADDRESS_BYTES
      ensures addressBox[..ADDRESS_BYTES * counter] == Roms(outs[..counter])
      ensures addressBox[ADDRESS_BYTES * counter..] == old(addressBox[ADDRESS_BYTES * counter..])
      ensures Snapshot(bus) == Before(Restart(old(Snapshot(bus))), outs, |outs|)
    {
      counter := 0;
      ghost var start := Restart(Snapshot(bus));
      InitSearchRoutine();
      assert Snapshot(bus) == start;
      outs := [];
      var i := 0;
      while i < number
        invariant Valid() && counter == i == |outs| <= number
        invariant Trail(start, outs)
        invariant forall j :: 0 <= j < |outs| ==> outs[j].status == FOUND && |outs[j].after.rom| == ADDRESS_BYTES
        invariant Snapshot(bus) == Before(start, outs, |outs|)
        invariant addressBox[..ADDRESS_BYTES * counter] == Roms(outs)
        invariant forall j :: ADDRESS_BYTES * counter <= j < addressBox.Length ==> addressBox[j] == old(addressBox[j])
      {
        var status, outs' := SearchRound(bus, addressBox, counter as nat, start, outs);
        if status != FOUND {
          assert outs'[..counter] == outs;
          assert forall j :: 0 <= j < counter ==> outs'[..counter][j] == outs[j];
          outs := outs';
          break;
        }
        outs := outs';
        counter := counter + 1;
        i := i + 1;
      }
      assert |outs| == counter ==> outs[..counter] == outs;
    }
  }
}
