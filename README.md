# pico-eeprom in Dafny

A model of the firmware that makes a Raspberry Pi Pico act as a parallel
32 KiB EEPROM. A PIO state machine (the bus sampler) watches the address,
data and control pins and, once a read or write on the bus is complete and
valid, hands the CPU one 32-bit word: a snapshot of the pins. The CPU takes
the 15-bit address (bits 8-22), the 8-bit data value (bits 23-30) and the
`/R` flag (bit 2) out of that word. For a read (`/R` clear) it sends the byte
at the address back to the sampler. For a write (`/R` set) it stores the data
byte at the address and sends nothing. The memory is one 32768-byte array.
At start-up every cell `i` is filled with `(i & 0xff) + (i >> 8)`, truncated
to a byte.

The project has three modules:

- `transaction.dfy`, module `Transaction`: the word layout and the field
  extraction `OPADR`, `OPDATA` and the `/R` test, as pure bit-vector
  functions on `bv32`. It also holds `Encode`, the sampler's side of the
  layout. It puts the three fields in place and clears every other bit, so
  decode/encode round trips can be stated in both directions.
- `dispatch.dfy`, module `Dispatch`: the memory contents as a `seq<bv8>`.
  `Service` is the memory store's side of one decoded access (the triple
  address, data byte, direction that `Transaction.Decode` produces).
  `Apply` is one pass of the loop: decode the word, then service it.
  `ServiceAll` and `Run` are finite runs of the loop, over decoded accesses
  and over words. `InitPattern` is the start-up pattern. The module also
  holds the lemmas about them.
- `eeprom.dfy`, module `Device`: the firmware's imperative form. Class
  `Eeprom` holds the array `cells: array<bv8>`. Its constructor is the
  start-up fill loop. `Step` is one pass of the dispatch loop and updates the
  array in place. `Serve` runs the loop over a finite sequence of words.
  Each method's `ensures` ties the array and the responses to `Apply` or
  `Run` on the old contents.

Inputs and outputs of the hardware are parameters and results here. The
word the blocking FIFO receive would deliver is the `op` argument, or an
element of `ops`. The byte pushed back to the sampler is the `Some` response,
or an element of `responses`.

## Model

| member | source | states |
|---|---|---|
| `Transaction.OpAddress` | pico-eeprom.c:15 | the address is below 0x8000 for every word, and shifted back by 8 it is exactly the word's bits 8-22 |
| `Transaction.OpData` | pico-eeprom.c:16 | the data value is below 0x100 for every word, and shifted back by 23 it is exactly the word's bits 23-30 |
| `Transaction.Adr` | pico-eeprom.c:64 | the address used as an array index is below 32768 for every word, so `eeprom[adr]` needs no bounds check |
| `Transaction.DataByte` | pico-eeprom.c:79 | storing OPDATA into a `uint8_t` cell loses nothing: the byte, widened again, is the data field |
| `Transaction.IsWrite` | pico-eeprom.c:69 | the `/R` test `op & 0b00100` picks a write exactly when bit 2 is set |
| `Transaction.Decode` | pico-eeprom.c:64-79 | no contract of its own: the access holds `Adr`, `DataByte` and `IsWrite` of the word, each with its own contract; `DecodeIgnoresOtherBits` and `ApplyIgnoresOtherBits` state what it depends on |
| `Transaction.WriteStrobe` | pico-eeprom.c:86 | `/W` is bit 3 of the word, as the trace line reports it |
| `Transaction.ChipSelect` | pico-eeprom.c:86 | `/CS` is bit 4 of the word, as the trace line reports it |
| `Transaction.Encode` | pico-eeprom.c:14-16 | a word built from an address, a data value and a direction has no bit set outside `/R`, the address and the data field |
| `Transaction.EncodeMasksFields` | pico-eeprom.c:15-16 | an over-wide address or data value decodes to its low 15 or 8 bits (masking, not saturation); the direction always comes back |
| `Transaction.DecodeEncode` | pico-eeprom.c:15-16 | for an address below 0x8000 and data below 0x100, decoding the built word gives back the address, the data and the direction |
| `Transaction.EncodeDecode` | pico-eeprom.c:15-16 | re-encoding the decoded fields of any word gives the word with only its `/R`, address and data bits kept |
| `Transaction.EncodeIsPinPlacement` | pico-eeprom.c:15-16 | for in-range fields, `(adr << 8) \| (data << 23) \| (w << 2)` with `w` in {0, 1} is the word `Encode` builds, with write iff `w = 1` |
| `Transaction.DecodeIgnoresOtherBits` | pico-eeprom.c:15-16 | two words that agree on bits 2, 8-22 and 23-30 decode to the same address, data and direction |
| `Dispatch.InitPattern` | pico-eeprom.c:43 | no contract of its own: `TruncatedSum` equates it with the line's expression truncated to a byte, and `InitPatternSamples`, `InitPatternInPage` and `InitPatternNextPage` give its values and shape |
| `Dispatch.TruncatedSum` | pico-eeprom.c:43 | the fill expression `(i & 0xff) + (i >> 8)`, computed wider and truncated by the byte store, is the low byte plus the high byte modulo 256 |
| `Dispatch.InitPatternSamples` | pico-eeprom.c:42-43 | after start-up cell 0 holds 0, cell 256 holds 1 and cell 511 holds 0 |
| `Dispatch.InitPatternInPage` | pico-eeprom.c:42-43 | inside a 256-byte page each cell of the start-up image is one more than the one before, modulo 256 |
| `Dispatch.InitPatternNextPage` | pico-eeprom.c:42-43 | each 256-byte page of the start-up image is the previous page plus one, modulo 256 |
| `Dispatch.Service` | pico-eeprom.c:69-79 | on a decoded access: a read sends back the byte at the address and leaves the contents unchanged; a write sends nothing, stores the data byte at the address and leaves every other cell unchanged; the contents keep their 32768 cells |
| `Dispatch.Apply` | pico-eeprom.c:63-83 | one pass of the loop body keeps the 32768 cells and sends a byte back exactly when bit 2 of the word is clear; `ApplyRead` and `ApplyWrite` give its full result |
| `Dispatch.ApplyRead` | pico-eeprom.c:69-73 | a word with bit 2 clear sends back exactly `eeprom[OPADR(op)]` and leaves every cell unchanged |
| `Dispatch.ApplyWrite` | pico-eeprom.c:77-79 | a word with bit 2 set sends nothing, sets `eeprom[OPADR(op)]` to `OPDATA(op)` and leaves every other cell unchanged |
| `Dispatch.ReadAfterWrite` | pico-eeprom.c:69-79 | a read of the address a write just stored to sends back the written data byte |
| `Dispatch.WriteOverwrites` | pico-eeprom.c:77-79 | a second write to the same address erases every trace of the first |
| `Dispatch.ApplyIgnoresOtherBits` | pico-eeprom.c:64-79 | dispatch depends only on bit 2, the address and the data: words that differ only in `/W`, `/CS` or the reserved bits 0, 1, 5-7 and 31 give the same response and the same new contents |
| `Dispatch.ApplyIgnoresStrobeAndSelect` | pico-eeprom.c:64-86 | flipping `/W` or `/CS` changes the flag the trace line reports and neither the response nor the new contents |
| `Dispatch.Emitted` | pico-eeprom.c:73 | a `Some` response becomes the one-byte sequence holding its byte, `None` the empty sequence |
| `Dispatch.ReadCount` | pico-eeprom.c:69-73 | the number of reads among the decoded accesses is at most their number |
| `Dispatch.ReadCountAppend` | pico-eeprom.c:69-73 | the reads of two batches put together number the reads of the first plus the reads of the second |
| `Dispatch.DecodeAll` | pico-eeprom.c:63-79 | no contract of its own: it decodes each delivered word, in delivery order, and `Run`, `RunAppend`, `RunFrame` and `RunOfReads` are stated over it |
| `Dispatch.ServiceAll` | pico-eeprom.c:52-83 | servicing accesses in order keeps the contents at 32768 cells and sends exactly one response per read |
| `Dispatch.Run` | pico-eeprom.c:52-88 | a run of the loop over a finite sequence of words keeps 32768 cells and sends one response per read word, so never more responses than words |
| `Dispatch.ServiceAllAppend` | pico-eeprom.c:52-83 | servicing two batches of accesses one after the other gives the same final contents, and the same responses in the same order, as servicing their concatenation |
| `Dispatch.ServiceAllSnoc` | pico-eeprom.c:52-83 | the last access of a batch is serviced against the contents the earlier ones left, and its response comes after theirs |
| `Dispatch.ServiceAllPrefix` | pico-eeprom.c:52-83 | the first k+1 accesses of a batch give what the first k gave, followed by servicing access k |
| `Dispatch.RunAppend` | pico-eeprom.c:52-88 | running two batches of words one after the other gives the final contents and the responses, in order, of running their concatenation |
| `Dispatch.ServiceAllFrame` | pico-eeprom.c:77-79 | a cell that no write access of the batch addresses ends the batch with the value it started with |
| `Dispatch.RunFrame` | pico-eeprom.c:52-88 | a cell that no write word of the run addresses ends the run with the value it started with |
| `Dispatch.ServiceAllReads` | pico-eeprom.c:69-73 | a batch of reads changes nothing, sends one response per access, and the k-th response is the byte at the k-th access's address |
| `Dispatch.RunOfReads` | pico-eeprom.c:69-76 | a run of read words changes nothing, sends one response per word, and the k-th response is the byte at the k-th word's address |
| `Dispatch.WriteThenReadScenario` | pico-eeprom.c:63-83 | writing 0xAB at 0x1234 and then reading 0x1234 sends back just 0xAB and leaves 0xAB in that cell, every other cell unchanged |
| `Device.Eeprom.constructor` | pico-eeprom.c:41-43 | start-up fills all 32768 cells of a fresh array, cell `i` with `InitPattern(i)` |
| `Device.Eeprom.Step` | pico-eeprom.c:63-83 | one pass of the loop body changes the array and responds exactly as `Apply` does on the old contents |
| `Device.Eeprom.Serve` | pico-eeprom.c:52-88 | servicing the words in delivery order leaves the array and the collected responses exactly as `Run` on the old contents |

## Left out

- PIO set-up (`pio_add_program`, `pio_claim_unused_sm`, `eeprom_program_init`): hardware configuration. The PIO program in `eeprom.pio.h` is not part of this model.
- `pio_sm_get_blocking` and `pio_sm_put`: the blocking receive becomes the `op` argument, or the sequence `ops`, and the send becomes the returned response. Blocking and the FIFO channel itself are not modelled. `pio_sm_put` pushes a 32-bit word holding the zero-extended byte; the model returns the byte.
- The `while (true)` loop never ends. The model has one step (`Step`) and finite runs (`Serve`, `Run`). Non-termination and liveness are not modelled.
- The picotool pin declarations (`bi_decl_if_func_used`): tooling metadata with no effect on behaviour.
- Everything under `EEPROM_DEBUG` (`stdio_init_all`, `sleep_ms`, `printf`): diagnostic I/O. Only the bit positions of `/W` and `/CS` that the trace line prints are kept, as `WriteStrobe` and `ChipSelect`.
- The `__not_in_flash` placement of the array and the cycle-count reasoning behind testing reads first: memory placement and timing, not function.
- `/CS` filtering: the loop services every word it receives, whatever `/CS` says. It relies on the sampler sending only selected, complete transactions. The model keeps that behaviour and adds no filter.
- `Encode` does not appear in the firmware: the sampler builds the word by reading the pins. It stands for the layout the two sides agree on. It masks each field to its width, which is what makes the field-masking property hold.
- Adr: does not model the assignment of OPADR to the 16-bit variable `adr` as a 16-bit narrowing. It narrows the address field to 15 bits and turns that into an unbounded index, which is the same value because the field is below 0x8000.
- Device.Eeprom.constructor: models the start-up loop's `uint16_t` counter as an unbounded counter with a 16-bit view used in the cell's expression. The counter never reaches 65536, so it never wraps.
