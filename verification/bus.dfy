/** The bit-level bus primitives of the Tiva driver (`onewire_reset`,
    `readBit`, `writeBit0`, `writeBit1`), with the GPIO line and the SysTick
    delays replaced by an abstract bus object.

    The bus is driven by two oracles that stand for what the slaves do:
    `resets` says, for each successive reset, what the idle polls and the
    presence sample see; `input` holds the levels that successive read slots
    sample. Everything the master does is appended to `trace`. */
module OneWireBus {

  /** One thing the master did on the bus. */
  datatype Event =
    | ResetPulse(present: bool)   // a call of onewire_reset and its answer
    | Write(bit: bool)            // a write slot (writeBit1 or writeBit0)
    | Read(bit: bool)             // a read slot and the level it sampled

  /** What the line does during one call of onewire_reset: the level seen at
      each 2-microsecond idle poll before the reset pulse, and whether a
      slave answered with a presence pulse after it. */
  datatype ResetSlot = ResetSlot(idle: seq<bool>, presence: bool)

  /** Number of idle polls onewire_reset makes before giving up. */
  const IDLE_POLLS: nat := 100

  /** s without its first n elements (empty when s is shorter). */
  function Drop<T>(s: seq<T>, n: nat): (r: seq<T>)
    ensures |r| == if n <= |s| then |s| - n else 0
  {
    if n <= |s| then s[n..] else []
  }

  /** Level sampled by the i-th read slot from now: a recorded level, or 1
      once the recording is exhausted (nobody pulls the line low against
      the pull-up). */
  predicate BitAt(input: seq<bool>, i: nat)
  {
    i >= |input| || input[i]
  }

  /** The levels the next n read slots sample. */
  function Peek(input: seq<bool>, n: nat): seq<bool>
  {
    seq(n, i requires 0 <= i < n => BitAt(input, i))
  }

  /** The trace of writing the given bits, one write slot each. */
  function Writes(bits: seq<bool>): seq<Event>
  {
    seq(|bits|, i requires 0 <= i < |bits| => Write(bits[i]))
  }

  /** The trace of read slots that sampled the given bits. */
  function Reads(bits: seq<bool>): seq<Event>
  {
    seq(|bits|, i requires 0 <= i < |bits| => Read(bits[i]))
  }

  /** Level seen at idle poll i; polls past the recorded ones see the line
      held low. */
  predicate Sample(idle: seq<bool>, i: nat)
  {
    i < |idle| && idle[i]
  }

  /** The line was seen released (high) at one of the idle polls. */
  predicate IdleSeen(idle: seq<bool>)
  {
    exists i :: 0 <= i < IDLE_POLLS && Sample(idle, i)
  }

  /** The idle wait as written ends with `timeout == 0`, so that
      onewire_reset reports a bus timeout, exactly when the line is first
      seen high at the 100th poll. */
  predicate IdleTimeout(idle: seq<bool>)
  {
    Sample(idle, IDLE_POLLS - 1) && forall j :: 0 <= j < IDLE_POLLS - 1 ==> !Sample(idle, j)
  }

  /** The idle-wait loop of onewire_reset exactly as written: `timeout` is a
      uint8 starting at 100, the loop condition is `timeout--` and a high
      sample breaks out; the caller then reports a bus timeout iff
      `timeout == 0`. Its postconditions exhibit the defect: a line that is
      never released leaves timeout wrapped to 255 (no timeout reported),
      while a line released exactly at the last poll leaves 0 (a timeout
      reported although the line is idle). */
  method PollIdleAsWritten(idle: seq<bool>) returns (timeout: int)
    ensures 0 <= timeout < 256
    ensures !IdleSeen(idle) ==> timeout == 255
    ensures IdleSeen(idle) ==> timeout < 100
    ensures timeout == 0 <==> IdleTimeout(idle)
    ensures forall j :: 0 <= j < 99 - timeout ==> !Sample(idle, j)
    ensures timeout < 100 ==> Sample(idle, 99 - timeout)
  {
    timeout := 100;
    while true
      invariant 0 <= timeout <= 100
      invariant forall j :: 0 <= j < 100 - timeout ==> !Sample(idle, j)
      decreases timeout
    {
      var t := timeout;
      timeout := if t == 0 then 255 else t - 1;   // post-decrement of a uint8
      if t == 0 {
        break;
      }
      if Sample(idle, 99 - timeout) {
        break;
      }
    }
  }

  /** The idle wait as evidently intended: poll at most 100 times and report
      whether the line was ever seen released. */
  method PollIdle(idle: seq<bool>) returns (seen: bool)
    ensures seen <==> IdleSeen(idle)
  {
    var timeout := IDLE_POLLS;
    seen := false;
    while timeout > 0 && !seen
      invariant 0 <= timeout <= IDLE_POLLS
      invariant seen ==> timeout < IDLE_POLLS && Sample(idle, IDLE_POLLS - 1 - timeout)
      invariant forall j :: 0 <= j < IDLE_POLLS - timeout - (if seen then 1 else 0) ==> !Sample(idle, j)
    {
      timeout := timeout - 1;
      seen := Sample(idle, IDLE_POLLS - 1 - timeout);
    }
  }

  /** Answer of the next onewire_reset as written: the idle wait did not
      end with `timeout == 0` and a slave answered with a presence pulse.
      With no recorded slot left, nobody answers. */
  predicate ResetAnswer(resets: seq<ResetSlot>)
  {
    resets != [] && !IdleTimeout(resets[0].idle) && resets[0].presence
  }

  /** The abstract bus line. */
  class Bus {
    var resets: seq<ResetSlot>
    var input: seq<bool>
    var trace: seq<Event>

    constructor (resets: seq<ResetSlot>, input: seq<bool>)
      ensures this.resets == resets && this.input == input && trace == []
    {
      this.resets := resets;
      this.input := input;
      trace := [];
    }

    /** onewire_reset: wait for the line to be idle (as written, see
        PollIdleAsWritten), send the reset pulse and sample the presence
        pulse. */
    method Reset() returns (present: bool)
      modifies this
      ensures present == ResetAnswer(old(resets))
      ensures resets == Drop(old(resets), 1) && input == old(input)
      ensures trace == old(trace) + [ResetPulse(present)]
    {
      if resets == [] {
        present := false;
      } else {
        var slot := resets[0];
        resets := resets[1..];
        var timeout := PollIdleAsWritten(slot.idle);
        present := timeout != 0 && slot.presence;
      }
      trace := trace + [ResetPulse(present)];
    }

    /** readBit: one read slot, sampling the level the slaves leave. */
    method ReadBit() returns (b: bool)
      modifies this
      ensures b == BitAt(old(input), 0)
      ensures input == Drop(old(input), 1) && resets == old(resets)
      ensures trace == old(trace) + [Read(b)]
    {
      if input == [] {
        b := true;
      } else {
        b := input[0];
        input := input[1..];
      }
      trace := trace + [Read(b)];
    }

    /** writeBit0: a long low pulse. */
    method WriteBit0()
      modifies this
      ensures input == old(input) && resets == old(resets)
      ensures trace == old(trace) + [Write(false)]
    {
      trace := trace + [Write(false)];
    }

    /** writeBit1: a short low pulse. */
    method WriteBit1()
      modifies this
      ensures input == old(input) && resets == old(resets)
      ensures trace == old(trace) + [Write(true)]
    {
      trace := trace + [Write(true)];
    }
  }

  /** Reading after dropping n levels sees the level n further on. */
  lemma BitAtDrop(input: seq<bool>, n: nat, i: nat)
    ensures BitAt(Drop(input, n), i) == BitAt(input, n + i)
  {
  }

  /** Dropping twice drops the sum. */
  lemma DropDrop<T>(s: seq<T>, m: nat, n: nat)
    ensures Drop(Drop(s, m), n) == Drop(s, m + n)
  {
  }

  /** The next m + n read slots are the next m, then the n after those. */
  lemma {:induction false} PeekSplit(input: seq<bool>, m: nat, n: nat)
    ensures Peek(input, m + n) == Peek(input, m) + Peek(Drop(input, m), n)
  {
    forall i | 0 <= i < m + n
      ensures Peek(input, m + n)[i] == (Peek(input, m) + Peek(Drop(input, m), n))[i]
    {
      if i >= m {
        BitAtDrop(input, m, i - m);
      }
    }
  }

  /** Peeking into recorded levels followed by anything sees those levels. */
  lemma {:induction false} PeekPrefix(bits: seq<bool>, rest: seq<bool>)
    ensures Peek(bits + rest, |bits|) == bits
  {
  }

  /** As written, a reset goes ahead on a line held low through all 100
      idle polls: a present slave makes it answer true. */
  lemma {:induction false} ResetIgnoresBusyLine(idle: seq<bool>)
    requires forall j :: 0 <= j < |idle| ==> !idle[j]
    ensures ResetAnswer([ResetSlot(idle, true)])
    ensures !IdleSeen(idle)
  {
    assert !Sample(idle, IDLE_POLLS - 1);
  }

  /** As written, a reset whose line is first seen high at the 100th poll
      answers false even with a slave present, although the line is idle. */
  lemma {:induction false} ResetRefusesIdleLine()
    ensures var idle := seq(IDLE_POLLS, i requires 0 <= i < IDLE_POLLS => i == IDLE_POLLS - 1);
            IdleSeen(idle) && !ResetAnswer([ResetSlot(idle, true)])
  {
    var idle := seq(IDLE_POLLS, i requires 0 <= i < IDLE_POLLS => i == IDLE_POLLS - 1);
    assert Sample(idle, IDLE_POLLS - 1);
  }
}
