# 1-Wire master driver (Tiva) in Dafny

This project models the protocol logic of the Tiva 1-Wire master driver,
`src/onewire_tiva.c`. The driver talks to slaves on one open-drain line. It
resets the bus, sends command bytes least significant bit first, receives
bytes, and enumerates slave addresses with the 1-Wire ROM search. The search
walks the 64-bit address tree one bit pair at a time. Between calls it keeps
three variables at file scope: `last_conflict_bit`, `is_last_device_found`
and `ROM[8]`.

The model has five modules:

- `Bits` (`bits.dfy`): bytes as `bv8` and their bit views, least
  significant bit first. It holds the receive accumulator `Assemble` and the
  round trips between bytes and bits.
- `OneWireBus` (`bus.dfy`): the line as an object, class `Bus`.
  - `resets` says what each reset sees: the idle polls and the presence
    sample.
  - `input` holds the levels that successive read slots sample. When it is
    exhausted, a read sees 1, the pull-up level.
  - `trace` records every reset, write slot and read slot.
  - `readBit`, `writeBit0`, `writeBit1` and `onewire_reset` are methods of
    `Bus`.
- `Transport` (`transport.dfy`): `onewire_send`, `onewire_receive`,
  `onewire_sendBuffer` and `onewire_receiveBuffer`.
- `RomCommands` (`commands.dfy`): the command codes READ_ROM (0x33),
  MATCH_ROM (0x55), SKIP_ROM (0xCC) and SEARCH_ROM (0xF0).
  - `onewire_getSlaveAddress`, `onewire_select` and `onewire_selectAll`.
  - `onewire_checkData`, as written.
- `Search` (`search.dfy`): the search engine, in two halves.
  - A pure specification of one pass. It is a function of the levels the
    read slots sample, the previous `last_conflict_bit` and the previous ROM
    bits.
  - The engine itself: class `SearchState`, with the three file-scope
    variables as fields. It holds `onewire_initSearchRoutine`,
    `onewire_searchNextDevice` and `onewire_search`.

`onewire_searchNextDevice` is split into the same steps the C function takes:
- `SearchPass` is the `while (bit_index <= 64)` loop. `PassPosition` is one
  iteration of it, and `ResolvePair` is the bit-pair decision inside it.
- `ConcludePass` is the code after the loop.
- `SetRomBit`, `ClearRomBit` and `RomBitAt` are the three ROM bit
  expressions.

The `address` argument, which points into `address_box[counter]`, is modelled as an array and an offset.
`address_box` is a flat array whose k-th row is bytes `8k .. 8k+7`.

In three places the code does less than its comments and names suggest.
The model follows the code in each:
- `onewire_checkData` is documented as a CRC-8 check
  (src/onewire_tiva.c:29), but its loop body (lines 37-39) is empty. `crc`
  stays 0 and every buffer is accepted.
- The idle wait of `onewire_reset` (lines 59-74) does not fail a reset whose
  line is never seen high, and it fails one whose line is first seen high at
  the last poll; see Findings. `Bus.Reset` is the reset as written. The
  corrected wait, `PollIdle`, is stated and proved beside it.
- `onewire_search` (lines 111-116) stops at the first status other than 1.
  A failed reset or a (1, 1) pair therefore ends the enumeration.

The calls of one session are also described as values. `Engine` holds the
three file-scope variables and the bus, and `NextSpec` is one call of
`onewire_searchNextDevice` as a function of that state. `NextDevice` is
proved equal to it. A `Trail` is a sequence of outcomes in which each call
starts from the state the previous one left. `Search` returns the trail of
the calls it made.

## Model

| member | source | states |
|---|---|---|
| `OneWireBus.PollIdleAsWritten` | src/onewire_tiva.c:59-74 | The idle poll as written, with a uint8 `timeout` and `while (timeout--)`. A line never seen high leaves `timeout == 255`, so no timeout is reported. A line first seen high at poll i (counting from 0) leaves `timeout == 99 - i`. `timeout == 0`, a reported timeout, happens exactly when the line is first seen high at the 100th poll. |
| `OneWireBus.PollIdle` | src/onewire_tiva.c:59-74 | The idle poll as intended: it reports the line seen idle iff one of the 100 polls saw it high. |
| `OneWireBus.Bus.Reset` | src/onewire_tiva.c:57-88 | The reset as written. The answer is true iff a reset slot is left, the idle wait did not end with `timeout == 0` and a presence pulse followed. So a line never seen idle does not fail it. It consumes exactly one reset slot, leaves the read levels alone and appends one reset event carrying the answer. |
| `OneWireBus.ResetIgnoresBusyLine` | src/onewire_tiva.c:59-74 | A line held low through all 100 polls is never seen idle, yet a reset with a presence pulse answers true. |
| `OneWireBus.ResetRefusesIdleLine` | src/onewire_tiva.c:59-74 | A line first seen high at the 100th poll is seen idle, yet the reset answers false although a presence pulse follows. |
| `OneWireBus.Bus.ReadBit` | src/onewire_tiva.c:328-347 | Returns the next read level, or 1 once none are left. It consumes exactly that level and records a read slot with it. |
| `OneWireBus.Bus.WriteBit0` | src/onewire_tiva.c:296-309 | Appends exactly one write-0 slot and changes nothing else. |
| `OneWireBus.Bus.WriteBit1` | src/onewire_tiva.c:312-325 | Appends exactly one write-1 slot and changes nothing else. |
| `Bits.AssembleBit` | src/onewire_tiva.c:272-280 | Bit k of the value the receive loop accumulates, OR-ing in each bit shifted by its index, is the k-th bit received. Positions not yet received stay 0. |
| `Bits.ByteRoundTrip` | src/onewire_tiva.c:244-280 | Assembling the eight bits of a byte, least significant first, gives back the byte. |
| `Bits.BitsRoundTrip` | src/onewire_tiva.c:244-280 | Sending the byte assembled from eight received bits emits those same eight bits. |
| `Bits.BitsBytesOf` | src/onewire_tiva.c:166-187 | Regrouping the 64-bit view of the ROM buffer into bytes gives back the bytes. |
| `Bits.BytesBitsInjective` | src/onewire_tiva.c:166-187 | The 64-bit view of the ROM buffer, bit p in byte p/8 at bit p%8, determines the bytes. |
| `Bits.SetBit` | src/onewire_tiva.c:166 | OR-ing `1 << m` into a byte sets bit m and keeps every other bit. |
| `Bits.ClearBit` | src/onewire_tiva.c:170 | AND-ing a byte with the complement of `1 << m` clears bit m and keeps every other bit. |
| `Transport.Send` | src/onewire_tiva.c:244-253 | Emits exactly eight write slots, the k-th carrying bit k of the byte. It reads nothing and does not reset. |
| `Transport.Receive` | src/onewire_tiva.c:272-280 | Uses exactly eight read slots and returns the byte assembled from them, least significant bit first. |
| `Transport.SendBuffer` | src/onewire_tiva.c:260-266 | Emits the bits of `buffer[0..len)`, byte after byte in index order, and nothing else. |
| `Transport.ReceiveBuffer` | src/onewire_tiva.c:287-293 | `buffer[0..len)` receives the len successive bytes, in order. The rest of the buffer is untouched, and exactly 8·len read slots are used. |
| `Transport.SendReceiveRoundTrip` | src/onewire_tiva.c:244-280 | Receiving from read levels that replay what `onewire_send(d)` wrote yields d. |
| `Transport.BufferRoundTrip` | src/onewire_tiva.c:260-293 | Receiving n bytes from read levels that replay what `onewire_sendBuffer` wrote for n bytes yields those bytes. |
| `RomCommands.CheckData` | src/onewire_tiva.c:34-42 | As written, it accepts every buffer of every length. |
| `RomCommands.GetSlaveAddress` | src/onewire_tiva.c:91-98 | If the reset fails: false, one reset event and nothing else, address untouched. Otherwise: READ_ROM, then 64 read slots whose 8 assembled bytes fill `address[0..8)`, and true. |
| `RomCommands.Select` | src/onewire_tiva.c:222-229 | If the reset fails: false and nothing else. Otherwise: MATCH_ROM, then the bits of the 8 address bytes in order, and true. Nothing is read. |
| `RomCommands.SelectAll` | src/onewire_tiva.c:232-238 | If the reset fails: false and nothing else. Otherwise: SKIP_ROM only, and true. |
| `Search.ReachFrom` | src/onewire_tiva.c:151-159 | The stopping position of the loop from position k. It lies between k and 64, and below 64 its bit pair reads (1, 1). |
| `Search.NoFaultBefore` | src/onewire_tiva.c:151-159 | No position from k up to the stopping position reads (1, 1). So the stopping position is the first fault. |
| `Search.MarkerIsHighest` | src/onewire_tiva.c:174-204 | The conflict marker after n positions is the highest 1-based position whose (0, 0) collision was resolved to 0, or 0 iff there was none. |
| `Search.MarkerNeverLast` | src/onewire_tiva.c:176-179 | The saved conflict position is never saved again: it is taken on its 1 branch. |
| `Search.WrittenBitIsRomBit` | src/onewire_tiva.c:151-197 | In the slots of a pass, position k is two reads (bit_A, then bit_B) and then a write of exactly the bit left in the ROM at position k. |
| `Search.PassAdvance` | src/onewire_tiva.c:161-197 | One position replaces ROM bit k by the chosen bit. It moves the marker to k+1 exactly when a (0, 0) pair is resolved to 0 there. |
| `Search.SingleSlavePass` | src/onewire_tiva.c:151-204 | With one slave, a pass never faults, rebuilds that slave's 64 address bits and leaves the marker at 0. So the engine marks the last device found. |
| `Search.SingleSlaveAddress` | src/onewire_tiva.c:151-211 | With one slave, the ROM bytes a completed pass leaves are that slave's address. |
| `Search.PutBitView` | src/onewire_tiva.c:166-183 | Writing bit v at position p of the ROM buffer changes bit p of its 64-bit view and nothing else. |
| `Search.Restart` | src/onewire_tiva.c:123-130 | The state `onewire_initSearchRoutine` leaves satisfies the invariant the engine keeps between calls: 8 ROM bytes, `last_conflict_bit <= 64`, and the flag only with marker 0. |
| `Search.NextSpec` | src/onewire_tiva.c:133-216 | One call as a function of the state it starts from. It keeps the between-call invariant and never returns 2. It returns 3 iff the last-device flag was set. After a 1, the flag is set iff the new `last_conflict_bit` is 0. |
| `Search.TrailSnoc` | src/onewire_tiva.c:107-116 | A trail extended by the outcome of a call from the state it left is again a trail. |
| `Search.TrailDetermined` | src/onewire_tiva.c:101-120 | Two trails from the same state agree on every call they share. The outcomes of a session are determined by the state it starts from. |
| `Search.SessionStartsFresh` | src/onewire_tiva.c:123-143 | In a session started by `onewire_initSearchRoutine`, the first call never returns 3. |
| `Search.FoundThenDone` | src/onewire_tiva.c:133-205 | After a call returns 1, the next call returns 3 iff that pass left `last_conflict_bit == 0`. That call changes only the flag, so the call after it sweeps from position 0 again. |
| `Search.SearchState.InitSearchRoutine` | src/onewire_tiva.c:123-130 | Afterwards `last_conflict_bit == 0`, `is_last_device_found` is false and all 8 ROM bytes are 0. |
| `Search.SearchState.SetRomBit` | src/onewire_tiva.c:166 | The ROM's bit view gains a 1 at the given position and is otherwise unchanged. |
| `Search.SearchState.ClearRomBit` | src/onewire_tiva.c:170 | The ROM's bit view gains a 0 at the given position and is otherwise unchanged. |
| `Search.SearchState.RomBitAt` | src/onewire_tiva.c:187 | `ROM[i/8] & (1 << (i%8))` is bit i of the ROM's bit view. |
| `Search.SearchState.ResolvePair` | src/onewire_tiva.c:161-196 | Stores the bit the pair selects into ROM and writes that same bit back. (1,0) gives 1 and (0,1) gives 0. For (0,0): 1 at `last_conflict_bit`; 0 and a marker move beyond it; the old ROM bit below it. Below it the ROM bytes are untouched, and the marker moves iff the old bit was 0. |
| `Search.SearchState.PassPosition` | src/onewire_tiva.c:151-198 | One loop iteration takes the ROM bits, marker and trace of a pass from position k-1 to k. On a (1, 1) pair it stops there, with the ROM unchanged. |
| `Search.SearchState.SearchPass` | src/onewire_tiva.c:151-198 | The loop faults iff some pair reads (1, 1). It then leaves the ROM bits, marker, trace and unread levels of the pass specification up to the first fault, or of all 64 positions. |
| `Search.SearchState.ConcludePass` | src/onewire_tiva.c:200-215 | `last_conflict_bit` becomes the marker. The last-device flag is set iff the marker is 0, before the check and whatever its answer. The ROM goes to `address[0..8)` and 1 is returned iff `onewire_checkData` accepts. Otherwise address is untouched and 2 is returned. |
| `Search.SearchState.NextDevice` | src/onewire_tiva.c:133-216 | Status and new state (the three file-scope variables, the reset slots, the read levels and the trace) are exactly `NextSpec` of the old state. Early exits never touch address. The flag set gives 3, flag cleared and no bus activity. A failed reset gives 0. A (1, 1) pair gives 4 and `last_conflict_bit := 0`. A completed pass gives the ROM bits and the highest 0-resolved collision of the pass specification, and copies ROM to address. Code 2 is never returned. |
| `Search.SearchState.SearchRound` | src/onewire_tiva.c:107-116 | One iteration of the loop: one call whose outcome extends the trail. On status 1, the ROM it leaves becomes the next row of `address_box` and later rows are untouched. On any other status the box is untouched. |
| `Search.SearchState.Search` | src/onewire_tiva.c:101-120 | The calls made are a trail from the state `onewire_initSearchRoutine` leaves, and the engine ends in the state the last call left. `counter <= number` counts the leading calls that return 1. There is one more call only when it is below `number`, and that call does not return 1. `address_box[0..8·counter)` holds, in order, the ROMs those calls left. The rest of the box is untouched. |

## Left out

- GPIO access (`holdBus`, `releaseBus`, `sampleBus`) and the delays: the line is the abstract `Bus` object, whose levels are given by its `resets` and `input` sequences.
- `timing()`, the SysTick-driven sampler in lib/utils_tiva.c: the level it returns for a read slot or a presence window is an element of the `Bus` oracles, not a measured time.
- `tiva_onewire_init`: it stores the pin and starts the delay timer, which the model does not have.
- `UARTprintf` in `onewire_search`: logging only.
- The AVR port (src/onewire_avr.c, lib/utils_avr.c) and the headers: not part of this model.
- A CRC-8 over the ROM: the driver does not compute one, so `CheckData` stays the constant check the code implements and return code 2 is unreachable.
- uint8 widths: `last_conflict_bit`, `conflict_marker` and `bit_index` are `nat`; they only hold 0..65, so no wrap-around can occur. `counter` is the `uint8` subset type. The idle-poll `timeout` is the one place where 8-bit wrap-around matters and it is written out in `PollIdleAsWritten`.
- Several slaves answering at once: the bus replays given read levels instead of AND-ing the answers of simulated slaves, so enumeration order and completeness over a set of several slaves are not stated; the one-slave case is (`SingleSlavePass`, `SingleSlaveAddress`).

## Findings

| source | as written | input that shows it | evidently intended | confidence | as-written member | corrected member |
|---|---|---|---|---|---|---|
| src/onewire_tiva.c:59-74 | A uint8 counter starts at 100 and is post-decremented in the loop test; a high sample breaks out; the caller reports a timeout iff the counter is then 0. | A line held low for all 100 polls leaves `timeout` wrapped to 255, and the reset goes on as if the bus were idle. A line first seen high at the 100th poll leaves `timeout == 0`, and the reset reports a timeout although the line is idle. | Report a timeout exactly when none of the 100 polls saw the line high. | not executed | `OneWireBus.PollIdleAsWritten` | `OneWireBus.PollIdle` |
