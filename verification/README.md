# K155RE3 / K556RT4 PROM programmer: a Dafny model of the firmware core

This project models the firmware of an STM32-based programmer for two Soviet
fusible-link PROMs: the K155RE3 (32 cells of 8 bits) and the K556RT4 (256
cells of 4 bits). Two parts of the firmware are modelled, and properties of
each are proved:

- **The programming engine** (`firmware/prog.c`). It holds:
  - the selected chip profile (data mask and size);
  - the 256-byte write and read buffers;
  - the operations `clear`, `print`, `read`, `verify` and `empty`;
  - the `ADDR: BYTE BYTE…` entry parser;
  - the burn loop of `write`.
- **The command-line front end** (`firmware/console.c`). It holds:
  - the command table, `skip_spaces` and `parse_name`;
  - the dispatch rule of `parse_command`;
  - the line editor `input`.

The engine is imperative, and so is its model. `Prog.Programmer` is a class
with the firmware's statics as fields: `mask`, `size` and the two buffers as
`array<Byte>`. Its methods follow the C loops and are proved against
specification functions.

All GPIO access goes through a `Hardware.Bus` object. It records every call
in a trace of events:

- `SetAddress`;
- `SetData`;
- `Delay` (the DWT busy-wait);
- `IrqOff` and `IrqOn` (the interrupt bracket);
- `Get`, with the byte it returned.

The chip's answers are a function of the trace so far: a `Reader`, built
from the pin levels by `io_get_data`'s decoding. With this, the whole burn
loop of `prog_write` is a function of the chip's answers (`Burn.CellsRun`),
and the method is proved to produce exactly that trace. The properties of
the burn are lemmas about that function:

- which bits get pulsed, in what order, at which addresses;
- write enable only with interrupts masked;
- nothing after a failed bit.

Modules, in dependency order:

| file | module | contents |
|---|---|---|
| types.dfy | `Types` | `Byte` (bv8), `Word` (bv16), `Option`, the `Status` every operation reports |
| hardware.dfy | `Hardware` | `io_set_data` / `io_get_data` encodings, the `Bus` class |
| traces.dfy | `Traces` | interrupt-masking view of a trace, address and pulse projections, the event shapes of a probe, a pulse and a scan |
| burn.dfy | `Burn` | the burn loop of `prog_write` as functions of the chip's answers, and its properties |
| text.dfy | `Text` | `skip_spaces`, hexadecimal digits and numbers (`strtoul(…, 16)`, `%02X`) |
| fill.dfy | `Fill` | what `prog_enter` does to the write buffer, as functions of the text |
| driver.dfy | `Driver` | bus sequences: probing a cell, one burn pulse, the bit loop of one cell |
| prog.dfy | `Prog` | the `Programmer` class (the statics and the public `prog_*` operations) |
| editor.dfy | `Editor` | the line editor `input` |
| console.dfy | `Console` | command table, `parse_name`, `parse_command` |

C strings are the characters before their terminating NUL. A `char *` into a
string is an index `i <= |s|`, and `i == |s|` is the NUL.

## Model

| member | source | states |
|---|---|---|
| Hardware.DataWord | firmware/prog.c:34-36 | definition: the port B word `io_set_data` writes, the complemented data byte with bit 8 (write off) set unless writing |
| Hardware.DecodeData | firmware/prog.c:38-43 | definition: the byte `io_get_data` assembles from the shifted and masked port A and port B input words |
| Hardware.DataWordBits | firmware/prog.c:34-36 | the port word written by `io_set_data` carries the complement of each data bit on bits 0-7, has bit 8 set exactly when write is off, and keeps bits 9-15 low |
| Hardware.DecodeDataBits | firmware/prog.c:38-43 | each logical data bit of `io_get_data` comes from its own pin: B9, B10, B12-B15, A8, A9 |
| Hardware.DecodePinsFor | firmware/prog.c:38-43 | `io_get_data` recovers every byte placed on its eight data pins |
| Hardware.DecodeIgnoresOtherPins | firmware/prog.c:38-43 | no other input pin (B11 and the port A address lines included) influences `io_get_data` |
| Hardware.Bus.SetAddress | firmware/prog.c:30-32 | `io_set_address` writes the address to port A and appends one event to the trace |
| Hardware.Bus.SetData | firmware/prog.c:34-36 | `io_set_data` writes `DataWord(data, write)` to port B and appends one event |
| Hardware.Bus.GetData | firmware/prog.c:38-43 | `io_get_data` returns the chip's answer to the history so far and records it |
| Hardware.Bus.Delay | firmware/prog.c:137 | a `DWT_DELAY_MS` busy-wait leaves the ports alone and is recorded as a `Delay` event |
| Hardware.Bus.DisableIrq | firmware/prog.c:210 | `__disable_irq` is recorded as an `IrqOff` event |
| Hardware.Bus.EnableIrq | firmware/prog.c:214 | `__enable_irq` is recorded as an `IrqOn` event |
| Traces.Pulse | firmware/prog.c:207-217 | definition: the nine events of one burn pulse, in the order the firmware issues them |
| Traces.Probe | firmware/prog.c:136-138 | definition: opening a cell: drive its address, wait 1 ms, sample the data pins |
| Traces.ScanTrace | firmware/prog.c:135-139 | definition: the probes of a scan, one per address in ascending order |
| Traces.PulseKeepsMasking | firmware/prog.c:207-217 | a burn pulse drives write enable only while interrupts are masked, and leaves them enabled |
| Traces.PulseProjections | firmware/prog.c:207-217 | a burn pulse drives no address and enables writing of exactly its one bit value |
| Traces.ProbeFacts | firmware/prog.c:136-138 | probing a cell drives exactly that address, never write enable, and leaves the interrupt mask alone |
| Traces.ScanValues | firmware/prog.c:133-141 | a scan of n cells samples n bytes, each after everything driven before it |
| Traces.ScanStep | firmware/prog.c:135-139 | one loop iteration of the scan appends the probe of the next address and its sample |
| Traces.ScanAddresses | firmware/prog.c:133-141 | a scan drives the addresses 0, 1, …, n-1 in ascending order |
| Traces.ScanQuiet | firmware/prog.c:133-141 | a scan never drives write enable and never touches the interrupt mask |
| Burn.BurnBits | firmware/prog.c:198 | definition: `burn_bits`, the bits the target and the mask have and the chip does not read yet |
| Burn.BitsRun | firmware/prog.c:201-226 | definition: the inner loop from one bit position on, as the run the chip's answers determine |
| Burn.CellRun | firmware/prog.c:194-226 | definition: one iteration of the outer loop, a probe followed by the inner loop |
| Burn.CellsRun | firmware/prog.c:192-227 | definition: the outer loop from one address on, stopping at the first failed cell |
| Burn.BitFacts | firmware/prog.c:202 | `1 << bit_number` has exactly bit `bit_number` set and grows with it |
| Burn.BurnBitsMeaning | firmware/prog.c:198 | a bit is burned exactly when the target and the mask have it and the chip does not read it yet; `burn_bits` is a subset of `target & mask`, disjoint from `now` |
| Burn.SetBitsAreBits | firmware/prog.c:201-203 | the bits the loop visits as set are single bits of `burn_bits` |
| Burn.SetBitsComplete | firmware/prog.c:201-203 | every set bit of `burn_bits` in the range is visited: together with `SetBitsAreBits`, the visited bits are exactly the set bits |
| Burn.SetBitsAscending | firmware/prog.c:201-203 | they are visited in strictly ascending bit order |
| Burn.PulseStep | firmware/prog.c:203-224 | one burned bit is a pulse and a read-back; a clear read-back drives address 0 and fails the run, a set one goes on to the next bit |
| Burn.BitsRunPulses | firmware/prog.c:201-226 | the bit loop pulses exactly the set bits of `burn_bits` in ascending order; on a failure it pulses them up to and including the failing bit, which is one of them |
| Burn.BitsRunAddresses | firmware/prog.c:201-226 | the bit loop drives no address, except address 0 when it fails |
| Burn.PulseReadClean | firmware/prog.c:207-220 | a pulse with its read-back keeps write enable inside masked interrupts |
| Burn.BitsRunMasking | firmware/prog.c:201-226 | across the bit loop, write enable is driven only with interrupts masked, and they are enabled when it ends |
| Burn.BitsRunFailure | firmware/prog.c:219-224 | a failed bit loop ends with the failing pulse, its clear read-back and address 0: nothing follows |
| Burn.CellStep | firmware/prog.c:194-198 | one cell is a probe of its address and then the bit loop for `burn_bits` computed from the byte the probe sampled |
| Burn.CellRunPulses | firmware/prog.c:194-226 | one cell pulses exactly the bits of `burn_bits` for the byte it sampled, in ascending order |
| Burn.CellRunAddresses | firmware/prog.c:194-226 | one cell drives its own address, and then address 0 only if it fails |
| Burn.CellRunPulseBits | firmware/prog.c:196-203 | every pulse of a cell is a single bit that the target and the mask have and that the cell did not already read as set |
| Burn.CellRunMasking | firmware/prog.c:194-226 | one cell keeps write enable inside masked interrupts |
| Burn.CellRunFailure | firmware/prog.c:194-226 | a failed cell ends with its failing pulse, the read-back and address 0 |
| Burn.CellsRunAddresses | firmware/prog.c:193-227 | the write loop visits the addresses in ascending order from 0; a failure at some address stops it there, after address 0 is driven |
| Burn.CellsRunMasking | firmware/prog.c:193-227 | across the whole write loop, write enable is driven only with interrupts masked, and they are enabled at the end |
| Burn.CellsRunFailure | firmware/prog.c:219-224 | a failed write ends with the failing pulse, its read-back and address 0: no further bit, address or verify |
| Burn.CellsRunPulseBits | firmware/prog.c:193-227 | every pulse of the whole write is a single bit allowed by the chip's mask |
| Burn.ScanClean | firmware/prog.c:133-141 | a read scan with the final drive of address 0 keeps the interrupt discipline |
| Burn.WriteMasking | firmware/prog.c:188-229 | `prog_write`, with the verify that follows a completed burn, keeps write enable inside masked interrupts and ends with interrupts enabled |
| Text.SkipSpaces | firmware/console.c:51-55 | `skip_spaces` returns the first position at or after the start whose character is not an ASCII space; every character skipped is a space, and a tab is not skipped |
| Text.HexValue | firmware/prog.c:111 | definition: the unbounded value `strtoul(…, 16)` computes from a run of hex digits, most significant first |
| Text.HexEnd | firmware/prog.c:111 | where `strtoul(…, 16)` stops: the end of the run of hex digits that starts there, with every character before it a hex digit |
| Text.DigitValue | firmware/prog.c:111 | a hex digit of either case is worth less than 16 |
| Text.HexValueBound | firmware/prog.c:118 | n hex digits spell a number below 16^n |
| Text.HexDigit | firmware/prog.c:71 | the digit `%X` prints for 0..15 is a hex digit worth that value |
| Text.Hex2 | firmware/prog.c:71 | `%02X` prints two hex digits |
| Text.Hex2RoundTrip | firmware/prog.c:71 | what `%02X` prints for a byte, `strtoul(…, 16)` reads back as that byte |
| Text.Hex1RoundTrip | firmware/prog.c:71 | what `%X` prints for a value below 16, `strtoul(…, 16)` reads back |
| Fill.Header | firmware/prog.c:91-93 | definition: the address `strtoul` reads at the start of the text and the position after the ':' that must follow at once |
| Fill.HeaderMeaning | firmware/prog.c:91-93 | a text is an entry line exactly when it starts with one or more hex digits followed at once by ':', and the address is their value |
| Fill.Tokens | firmware/prog.c:104-121 | definition: the byte tokens the fill loop accepts, up to the first that is not a number or exceeds 0xFF, and whether the text ended cleanly |
| Fill.FillResult | firmware/prog.c:104-130 | definition: the independent closed form of the fill loop: the tokens at consecutive addresses as far as they fit, and the status the loop stops with |
| Fill.ShortTokensFit | firmware/prog.c:111-121 | a token of one or two hex digits always passes the `byte > UINT8_MAX` test: only a longer token can be refused as out of range |
| Fill.FillFrom | firmware/prog.c:104-130 | the fill loop keeps the buffer length |
| Fill.Enter | firmware/prog.c:89-131 | `prog_enter` handles the line exactly when it has the `ADDR:` header, and keeps the buffer length |
| Fill.FillResultStep | firmware/prog.c:127-129 | storing one byte and going on is the closed form with that byte in front |
| Fill.FillFromTokens | firmware/prog.c:104-130 | the fill loop equals its closed form: the accepted tokens land at consecutive addresses, as many as fit, with status TooBigAddress, IncorrectNumber or Ok |
| Fill.EnterStores | firmware/prog.c:104-130 | on an entry line with a chip and a header address below the size, the accepted bytes land at addr, addr+1, … as far as they fit, and every other entry is unchanged; stores are kept even when an error stops the loop |
| Fill.EnterStatus | firmware/prog.c:107-126 | the status is TooBigAddress when a further valid byte had no room, IncorrectNumber when a token was not a number or exceeded 0xFF, else Ok |
| Fill.EnterRefusals | firmware/prog.c:95-101 | with no chip selected an entry line is consumed and changes nothing; a header address at or past the size is refused before any store |
| Fill.ExampleBadToken | firmware/prog.c:110-121 | "05: AA ZZ" stores 0xAA at address 5, then stops with IncorrectNumber |
| Fill.ExampleOverflow | firmware/prog.c:123-129 | "1F: 01 02" on a K155RE3 fills the last cell, then reports TooBigAddress |
| Driver.ProbeCell | firmware/prog.c:194-196 | probing a cell appends exactly the probe events and returns the chip's answer to them |
| Driver.BurnPulse | firmware/prog.c:207-217 | a pulse appends exactly the nine events: pre-charge, 900 ms, interrupts off, write enable, 300 ms, write disable, interrupts on, 1200 ms, read level |
| Driver.PulseAndRead | firmware/prog.c:207-220 | a pulse followed by the read-back of the data pins |
| Driver.BurnBit | firmware/prog.c:202-225 | one bit step appends what `BitsRun` prescribes: nothing for a bit not to burn, otherwise pulse and read-back, and address 0 on failure |
| Driver.BurnCell | firmware/prog.c:200-226 | the bit loop appends exactly the events of `BitsRun` and reports its failing bit |
| Prog.FirstMismatch | firmware/prog.c:158-165 | the first index whose read-back differs from the target under the mask; every earlier index matches; none exactly when all match |
| Prog.FirstNonBlank | firmware/prog.c:176-183 | the first index that does not read with every mask bit set; every earlier index is blank; none exactly when all are blank |
| Prog.VerifyStatus | firmware/prog.c:158-167 | definition: what prog_verify reports: the first mismatch with its masked read and written values, or success |
| Prog.EmptyStatus | firmware/prog.c:176-185 | definition: what prog_empty reports: the first non-blank cell with its masked value, or success |
| Prog.Rows | firmware/prog.c:69-79 | definition: the cells cut into lines of 16 (`bytes_per_line`), the last possibly shorter |
| Prog.PrintedCells | firmware/prog.c:72-79 | the cells a dump lists, joined in address order, are exactly the first `size` cells each and-ed with the mask |
| Prog.CellText | firmware/prog.c:71-77 | definition: the digits printed for one cell: `%X` of the masked cell when the mask is at most 0xF, `%02X` otherwise |
| Prog.CellTextReadsBack | firmware/prog.c:71-77 | the digits printed for a cell are one digit on a four-bit chip and two on an eight-bit one, and `strtoul(…, 16)` reads them back whole as the masked cell |
| Prog.MaskedTwice | firmware/prog.c:138 | cells already stored masked print the same as the raw samples |
| Prog.RowsConcat | firmware/prog.c:72-79 | the printed rows, joined, are exactly the cells in address order |
| Prog.RowsShape | firmware/prog.c:69-79 | there are ceil(n/16) rows; every row but the last has 16 cells, and the last has 1 to 16 |
| Prog.RowsFrom | firmware/prog.c:72-78 | the row starting at cell i holds cells i up to min(i+16, n) |
| Prog.Programmer.ScannedFrom | firmware/prog.c:133-141 | definition: the state a scan leaves: probes of cells 0..size-1 ascending then address 0 on the bus, masked samples below the size, entries at or past the size unchanged |
| Prog.Programmer.constructor | firmware/prog.c:25-28 | at reset no chip is selected (mask and size 0) and both buffers are zero |
| Prog.Programmer.Clear | firmware/prog.c:64-66 | every one of the 256 write-buffer entries becomes 0 and nothing else changes |
| Prog.Programmer.SelectK155RE3 | firmware/prog.c:45-49 | mask 0xFF, size 0x20, write buffer cleared, read buffer and bus untouched |
| Prog.Programmer.SelectK556RT4 | firmware/prog.c:51-55 | mask 0x0F, size 0x100, write buffer cleared, read buffer and bus untouched |
| Prog.Programmer.PrintInternal | firmware/prog.c:68-80 | the rows printed are the masked cells below the size, 16 per row |
| Prog.Programmer.PrintLine | firmware/prog.c:76-77 | the inner loop lists the masked cells of one line: from cell i up to 16 cells, or to the size |
| Prog.Programmer.Print | firmware/prog.c:82-87 | "Chip not selected" and no output with no chip; otherwise the rows of the masked write buffer |
| Prog.Programmer.Enter | firmware/prog.c:89-131 | the handled flag, the reported status and the new write buffer are those of `Fill.Enter` |
| Prog.Programmer.FillLoop | firmware/prog.c:103-130 | the position-and-address loop computes exactly `Fill.FillFrom` |
| Prog.Programmer.ReadCell | firmware/prog.c:135-139 | one scan step stores the masked sample at i and extends the scan trace by one probe |
| Prog.Programmer.ReadInternal | firmware/prog.c:133-141 | cells 0..size-1 are probed in ascending order and their masked samples stored; address 0 is driven after; entries at or past the size are untouched |
| Prog.Programmer.Read | firmware/prog.c:143-150 | with no chip: "Chip not selected" and nothing touched; otherwise the state of a scan (`ScannedFrom`: ascending probes, masked samples stored, entries past the size unchanged), and the printed rows are the masked samples |
| Prog.Programmer.FindMismatch | firmware/prog.c:158-165 | the comparison loop finds exactly `FirstMismatch` |
| Prog.Programmer.FindNonBlank | firmware/prog.c:176-183 | the comparison loop finds exactly `FirstNonBlank` |
| Prog.Programmer.Verify | firmware/prog.c:152-168 | the state of a scan (`ScannedFrom`), then the first mismatching cell is reported with its masked read and write values, or success; no chip: nothing touched |
| Prog.Programmer.Empty | firmware/prog.c:170-186 | the state of a scan (`ScannedFrom`), then the first cell not reading as blank is reported with its masked value, or success; no chip: nothing touched |
| Prog.Programmer.BurnAt | firmware/prog.c:194-226 | one outer-loop iteration appends exactly the events of `CellRun` and reports its failing bit |
| Prog.Programmer.BurnAll | firmware/prog.c:192-227 | the outer loop appends exactly the events of `CellsRun` and reports the failing address and bit |
| Prog.Programmer.Write | firmware/prog.c:188-230 | no chip: nothing happens; the bus sees exactly the burn run `CellsRun`; a failed bit gives BurnFailed with address 0 driven, no verify and the read buffer unchanged; only a completed burn goes on to the verify scan (`ScannedFrom` after the run), whose status is reported |
| Prog.ExampleSession | firmware/prog.c:25-131 | from the reset state, `re3` then "05: AA ZZ" stores 0xAA at address 5 only and reports "Incorrect number" |
| Editor.Feed | firmware/console.c:60-90 | definition: the editor's state after a run of received characters, one `Step` per character |
| Editor.Step | firmware/console.c:61-89 | one received character keeps the line storable: shorter than the buffer, with no NUL, CR, LF or backspace in it |
| Editor.FeedAppend | firmware/console.c:60-90 | feeding two runs of characters is feeding one after the other |
| Editor.FeedDone | firmware/console.c:70-74 | once a line completes, later characters do not change it |
| Editor.FeedStorable | firmware/console.c:82-92 | whatever arrives, the line fits the buffer with its NUL and holds none of NUL, CR, LF, backspace |
| Editor.TypedLine | firmware/console.c:70-92 | ordinary characters that fit, followed by CR or LF, give exactly that line |
| Editor.BlankEndsIgnored | firmware/console.c:70-72 | CR or LF on an empty line is ignored |
| Editor.NulEndsEmpty | firmware/console.c:65-68 | NUL completes with an empty line, whatever was typed |
| Editor.BackspaceUndoes | firmware/console.c:75-81 | a character typed while the line has room, then a backspace, leaves no trace |
| Editor.ExampleOverflow | firmware/console.c:82-86 | a character arriving at a full buffer discards the line and is itself dropped |
| Editor.Input | firmware/console.c:57-93 | the loop stops at the first character that completes a line and leaves exactly the `Feed` line NUL-terminated in the buffer; running out of characters means no line completed |
| Console.Commands | firmware/console.c:34-45 | definition: the command table, row by row, with names, handlers, the no-arguments flag and help text |
| Console.ParseName | firmware/console.c:95-103 | matches exactly when the name starts the text and is followed by the end or a space; the result is past the name and all the spaces after it |
| Console.ParseNameWord | firmware/console.c:95-103 | a word matches its name only when a space or the end follows it, and lands on what follows the spaces |
| Console.FirstMatch | firmware/console.c:113-126 | the first row with a handler whose name matches; no earlier such row matches; none exactly when no row matches |
| Console.Dispatch | firmware/console.c:105-130 | blank exactly when the line is all spaces; prog_enter exactly when no row matches; the matched row runs only when nothing follows its name, else "Extra characters" |
| Console.TableNames | firmware/console.c:34-45 | no name of a row with a handler contains a space (the `ADDR:` header row's name does), and those names are pairwise different |
| Console.MatchUnique | firmware/console.c:114-125 | at most one row matches a line, so the first match is the only match |
| Console.TableNotHeaders | firmware/console.c:36-43 | no command name can begin an `ADDR:` header |
| Console.EntryLinesReachEnter | firmware/console.c:114-130 | an entry line never matches a command and always reaches prog_enter |
| Console.ExampleRun | firmware/console.c:107-124 | "  read" runs prog_read |
| Console.ExampleExtra | firmware/console.c:118-121 | "read x" is refused with "Extra characters at the end" |
| Console.FindCommand | firmware/console.c:113-126 | the table loop finds exactly `FirstMatch` |
| Console.HandlerEffect | firmware/prog.c:45-230 | definition: each handler's complete effect on the engine, its status and its rows, as the `prog_*` functions give them |
| Console.ChipEffect | firmware/prog.c:143-230 | definition: with a chip selected, read, verify and empty leave the state of a scan and report rows, mismatch or non-blank cell; write leaves the burn run's trace and, when no bit failed, a scan and the verify status |
| Console.InvokeLocal | firmware/console.c:36-39 | select, clear and print have the effects stated by `HandlerEffect` |
| Console.InvokeChip | firmware/console.c:40-43 | read, verify, empty and write have their complete effects as stated by `HandlerEffect` and `ChipEffect`: profile and write buffer kept, nothing touched without a chip, otherwise the scan state, rows and status of the `Programmer` method |
| Console.Invoke | firmware/console.c:122 | calling a row's handler has its complete effect as stated by `HandlerEffect` |
| Console.ParseCommand | firmware/console.c:105-145 | the reply and the engine state follow `Dispatch`. A blank line, extra characters or an unknown command change nothing. An entry line changes only the write buffer, as `Fill.Enter` says. A matched command has its handler's effect |

## Left out

- LED, USB and the console loop: `led_on`/`led_off` (firmware/console.c:147-153) and `console` (firmware/console.c:155-177), with its `dwt_init` call, USB-state polling and banner, are I/O and start-up, and are not modelled.
- `printf` output: text, ANSI colours and `print_error` are not modelled. Operations return a `Status`, and the printing operations return the rows of masked cells they would print. The digits printed for each cell are modelled (`Prog.CellText`); the `%02X:` address label at the start of each line and the line breaks are not.
- Help text: the help list printed after "Unknown command" is reduced to the `UnknownCommand` reply. The `clear` row's help says "fill 0FFh", but `prog_clear` zero-fills (firmware/prog.c:64-66); the model follows the code.
- Echo: the characters `input` echoes back (`write(0, …)`) are not modelled; its input is a finite sequence of received characters instead of blocking reads.
- `strtoul`: it is a library routine, modelled as a plain run of hex digits with an unbounded value. Leading whitespace, a sign and a `0x` prefix are not accepted; for example "0x10: 01" is an entry line for the firmware but not for the model. Saturation at `ULONG_MAX` gives the same outcomes as the unbounded value, since such a value is always above 0xFF and at or past the size.
- Timing and interrupts: `DWT_DELAY_MS` busy-waits are only `Delay` events, and `__disable_irq`/`__enable_irq` are only `IrqOff`/`IrqOn` events. Real timing and interrupt masking are hardware behaviour.
- The chip: the fuse physics is not modelled. The chip's answers are an arbitrary function of everything driven on the bus before the read, so every property holds for every possible chip.
- Prog.Programmer.Write: its contract gives the status and the trace of the burn. The facts about that trace (pulsed bits, addresses, interrupt masking, failure shape) are the `Burn` lemmas about `CellsRun`, not part of the method's contract.
- Declarations: firmware/prog.h and firmware/console.h hold declarations only, and are not part of this model.
