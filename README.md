# Event counter firmware (PIC16F877A) — Dafny model

A model of the hematological event counter in `new_contador.c`: eight
counting keys, a Reset key and a Function key on a 3 x 4 active-low key
matrix, and three multiplexed seven-segment digits. The firmware is one
super-loop. Each iteration does three things:

- it scans the matrix;
- when the scan shows a key that is not the last one seen, it waits, scans
  again, and dispatches the key only if the second scan agrees;
- it refreshes the three digits once.

The model has four modules:

- `Keypad` (keypad.dfy) holds `scanKeys`. `ScanKeys` is the row loop with
  its early returns (`ScanRow` and `TestColumns` are one row of it), and
  `Decode` is an independent reference decoder that walks the linear key
  index.
- `Display` (display.dfy) holds the digit-to-pattern table, the digit split
  of `displayNumber` (`Digits`), the percentage of `calculatePercentage`
  (`Percentage`), and the port writes of one multiplex pass (`Pass`).
- `Counter` (counter.dfy) holds the program's global state as a value
  (`State`) together with `main`'s `lastKey`. `Step` is one loop iteration
  on given scan results. The lemmas cover single steps and finite runs of
  steps.
- `Firmware` (firmware.dfy) is the in-place implementation. The class
  `CounterFirmware` has the globals as fields and arrays, and has methods
  for the loop body, the key dispatch, `updateDisplayData`,
  `displayNumber`, `calculatePercentage` and `multiplexDisplays`. Each
  method is proved equal to the value-level model.

`Bits` (bits.dfy) is a bit-test predicate that the key scan and the
display share.

The hardware is abstracted as follows:
- The column lines a scan reads are an input: one 4-bit nibble per row.
- The two scans of one iteration (the first and the reconfirming one) get
  separate readings, because a key can bounce between them.
- `ScanKeys` returns the row-port writes of one scan as a trace, and
  `MultiplexDisplays` and `LoopIteration` return the port writes of one
  multiplex pass as a trace.

Integer widths follow the target:
- `keyCount[]` is 16-bit `unsigned int` and wraps modulo 65536.
- `totalPulses` is 32-bit `unsigned long` and wraps modulo 2^32.

Because the two wrap at different widths, the invariant kept at all times
is that the total equals the sum of the counts modulo 65536. The exact
equality holds for as long as neither the count being incremented wraps
at 16 bits nor the total at 32 bits (`StepCountKey`); over a run, for as
long as no count plus the run's length can reach 65536 and the total plus
the run's length cannot reach 2^32 (`RunKeepsExactSum`).

Two behaviours of the source to note:
- The percentage is truncated by the `(unsigned int)` cast of the float,
  not rounded.
- `scanKeys` returns with the last scanned row still driven. It does not
  restore an idle pattern.

## Model

| member | source | states |
|---|---|---|
| `Keypad.TestColumns` | new_contador.c:114-122 | the four unrolled column tests stop at the first column whose line reads low (mask 0x01, 0x02, 0x04, 0x08 in that order); keyValue is advanced past exactly the columns that read high, and found is set exactly when it stopped inside the row |
| `Keypad.ScanRow` | new_contador.c:107-122 | from the row's first position 4*row, keyValue stops at the row's first key that is down, and runs to the next row's first position when none is |
| `Keypad.ScanKeys` | new_contador.c:103-126 | the row loop returns the reference decoding of the column readings, and it writes the row port once per scanned row, in order, up to the row where a key is found (all three rows when none is) |
| `Keypad.Decode` | new_contador.c:103-126 | the reference decoding is always a value scanKeys can return: 0..11 or 0xFF |
| `Keypad.FirstFromFound` | new_contador.c:103-126 | a position the reference decoder returns is a key that is down, and no earlier position is; 0xFF means no position from the start on is down |
| `Keypad.FirstFromIs` | new_contador.c:103-126 | the first position that is down is the one the reference decoder returns |
| `Keypad.FirstFromNone` | new_contador.c:125 | with no position down the reference decoder returns 0xFF |
| `Keypad.KeyAt` | new_contador.c:115-122 | position 4*row+col of the linear key index is the key at row row, column col |
| `Keypad.DecodeSpec` | new_contador.c:103-126 | the result is 0xFF exactly when no column reads low in any row; otherwise it is 4*row+col of an active key, and no key earlier in row-major order (lower row, then lower column) is active |
| `Keypad.RowDriveActiveLow` | new_contador.c:107 | `RowDrive`, the row-drive byte `~(1 << row)`, has the driven row's line low and every other line high |
| `Display.Digits` | new_contador.c:140-146 | three digits, each in 0..9, with 100*d0 + 10*d1 + d2 equal to the number saturated at 999 |
| `Display.DecimalSplit` | new_contador.c:143-145 | for a value up to 999, number/100, (number%100)/10 and number%10 are digits and add back up to the value |
| `Display.DigitsUnique` | new_contador.c:140-146 | any three digits in 0..9 denoting the saturated value are the digits displayNumber stores, so the split is the decimal representation |
| `Display.DigitsSaturate` | new_contador.c:141 | a number above 999 is shown as 9,9,9; one up to 999 is shown exactly |
| `Display.Percentage` | new_contador.c:149-158 | 0 when the total is 0; at most 100 when the count is not above the total |
| `Display.PercentageTruncates` | new_contador.c:152-155 | for a non-zero total the percentage p is count*100/total truncated: p*total <= 100*count < (p+1)*total |
| `Display.PercentageAtMostHundred` | new_contador.c:149-158 | a count not above the total gives at most 100, so the hundreds digit shown is at most 1 |
| `Display.DigitSelectOneHot` | new_contador.c:165 | `DigitSelect`, the select byte `1 << i`, has bit i set and no other bit |
| `Display.DigitSelectValues` | new_contador.c:165 | the select bytes of digits 0, 1, 2 are 0x01, 0x02, 0x04 |
| `Display.Frames` | new_contador.c:164-171 | the writes of the first n iterations of the digit loop (select, pattern, blank for each position in order); there are 3n of them |
| `Display.Pass` | new_contador.c:161-172 | the writes of one full pass of multiplexDisplays over the shown digits, Frames of all three positions; there are nine of them |
| `Display.SegmentPatternsDistinct` | new_contador.c:13-24 | the segment table has one pattern per decimal digit; none is the blank 0x00 and no two digits share one |
| `Display.PassFrames` | new_contador.c:164-171 | one pass is the three per-digit frames for positions 0, 1, 2, in that order |
| `Display.PassShape` | new_contador.c:161-172 | one pass is nine writes: for digits 0, 1, 2 in order, the select `1 << i`, then `SEGMENT_PATTERNS[digit]`, then segments 0x00 |
| `Display.SelectsAppend` | new_contador.c:164-171 | the select writes of two consecutive stretches of a trace are those of the first followed by those of the second |
| `Display.SelectsFrame` | new_contador.c:165-170 | the writes for one digit contain exactly one select, that of its own position |
| `Display.SelectsFrames` | new_contador.c:164-171 | after the first n iterations the select writes are those of positions 0..n-1, in order |
| `Display.PassSelectsEachDigitOnce` | new_contador.c:161-172 | the selects of a pass are exactly 0x01, 0x02, 0x04 in that order: each digit is selected once, in order |
| `Display.PassBlanksBeforeSelect` | new_contador.c:165-170 | every select after the first is immediately preceded by a segment blank, so no pattern is driven while the select changes |
| `Display.PassPatternAfterSelect` | new_contador.c:165-166 | a pass has nine writes; every non-blank segment write sits at position 3i+1, comes right after the select `1 << i` of digit i, and is the table pattern of digit i |
| `Counter.Init` | new_contador.c:27-43 | the power-on state (zero counts and total, count mode, digits 000, lastKey 0xFF) is well formed |
| `Counter.Shown` | new_contador.c:129-137 | the digits updateDisplayData produces for a key, raw count or percentage, are a valid snapshot (three digits in 0..9) |
| `Counter.SumUpdate` | new_contador.c:55 | replacing one count changes the sum of the counts by exactly the difference |
| `Counter.SumZeros` | new_contador.c:61 | the counts after the reset loop add up to 0 |
| `Counter.ElementAtMostSum` | new_contador.c:27 | no single count exceeds the sum of all counts |
| `Counter.TotalWrapKeepsLowBits` | new_contador.c:56 | wrapping the 32-bit total at 2^32 does not change it modulo 65536 |
| `Counter.StepCountKey` | new_contador.c:54-58 | a confirmed counting key k adds one to keyCount[k] and one to totalPulses, each wrapping at its width; it leaves every other count and the mode unchanged and shows key k; when the total was the exact sum, keyCount[k] + 1 does not wrap at 16 bits and totalPulses + 1 does not wrap at 32 bits, the total stays exactly the sum of the counts |
| `Counter.StepReset` | new_contador.c:59-66 | a confirmed Reset zeroes all eight counts and the total, sets the digits to 0,0,0 and keeps the mode |
| `Counter.StepFunction` | new_contador.c:67-77 | a confirmed Function key flips the mode and keeps counts and total; the digits become key 0's raw count in count mode or key 0's percentage in percentage mode |
| `Counter.Dispatch` | new_contador.c:54-77 | the effect of a confirmed key: a counting key increments its count and the total, each wrapping at its width, and shows that key; Reset zeroes counts, total and digits; Function flips the mode and shows key 0; 10 and 11 do nothing (the effects are stated by `StepCountKey`, `StepReset` and `StepFunction`); its contract keeps eight counts and never touches lastKey, which the loop records at line 79 |
| `Counter.Step` | new_contador.c:48-83 | one loop iteration on the two scans' results: dispatch only a new key the second scan confirms; afterwards lastKey is always the first scan's result (a new key, 0xFF, or the unchanged held key) |
| `Counter.StepDebounce` | new_contador.c:48-83 | a 0xFF scan only resets lastKey to 0xFF; a scan equal to lastKey changes nothing; a failed reconfirmation changes nothing but sets lastKey to the first scan; a dispatch happens exactly when the scan is new and confirmed; scan results 10 and 11 never change the counter state |
| `Counter.CountGood` | new_contador.c:54-58 | counting a key keeps the state well formed, through 16-bit wrap of the count and 32-bit wrap of the total |
| `Counter.DispatchGood` | new_contador.c:54-77 | every dispatch keeps the state well formed |
| `Counter.StepGood` | new_contador.c:47-86 | one iteration keeps the state well formed: widths, digits in 0..9 (the segment table index in bounds), lastKey a scan result, total equal to the sum of the counts modulo 65536 |
| `Counter.HeldSeenKeyIsIgnored` | new_contador.c:50 | while the key recorded in lastKey stays down, any number of iterations change nothing and dispatch nothing |
| `Counter.HeldKeyDispatchedOnce` | new_contador.c:48-83 | a key held across any number of iterations is dispatched at most once, not at all if it was already lastKey, and exactly once if its first press is confirmed |
| `Counter.RunGood` | new_contador.c:47-86 | every run of iterations on scan results keeps the state well formed |
| `Counter.RunKeepsExactSum` | new_contador.c:54-66 | from an exact-sum state, a run too short to wrap any 16-bit count (every count plus the run length below 65536) or the 32-bit total keeps totalPulses exactly equal to the sum of keyCount |
| `Firmware.CounterFirmware.constructor` | new_contador.c:27-43 | the object starts with the power-on state and is valid |
| `Firmware.CounterFirmware.DisplayNumber` | new_contador.c:140-146 | writes exactly the digits of the number saturated at 999 into displayDigits |
| `Firmware.CounterFirmware.CalculatePercentage` | new_contador.c:149-158 | writes the digits of key k's percentage of the total, 0 when the total is 0 |
| `Firmware.CounterFirmware.UpdateDisplayData` | new_contador.c:129-137 | writes key k's raw count in count mode or its percentage in percentage mode |
| `Firmware.CounterFirmware.MultiplexDisplays` | new_contador.c:161-172 | the port writes of the loop are exactly one pass over the current digits, and the table is indexed in bounds |
| `Firmware.CounterFirmware.CountKey` | new_contador.c:54-58 | the in-place increments and display update leave exactly the state of the value-level count |
| `Firmware.CounterFirmware.ResetCounters` | new_contador.c:59-66 | the zeroing loop and the digit writes leave all counts, the total and the digits zero, as the value-level reset does |
| `Firmware.CounterFirmware.ToggleMode` | new_contador.c:67-77 | the toggle and the redisplay of key 0 leave exactly the state of the value-level mode toggle |
| `Firmware.CounterFirmware.DispatchKey` | new_contador.c:54-77 | the in-place count, reset and mode toggle leave exactly the state that the value-level dispatch gives; 10 and 11 do nothing |
| `Firmware.CounterFirmware.HandleKeys` | new_contador.c:48-83 | the scan, reconfirmation, dispatch and lastKey update leave the state that Step gives on the two scans' decoded keys |
| `Firmware.CounterFirmware.LoopIteration` | new_contador.c:47-86 | one iteration of the loop body leaves the state that Step gives, keeps the object valid, and returns one multiplex pass over the new digits |

## Left out

- `tito.c` and `tito1.c` are not part of this model. They are stand-alone `malloc`/`printf`/`free` demonstrations with no state shared with the counter.
- `initPorts` and the configuration-fuse line (new_contador.c:7, 90-100) are not modelled. They are one-time static hardware configuration.
- The busy-wait delays `__delay_ms` and `__delay_us` are not modelled. Timing is not observable in the model, so the delays are no-ops.
- The infinite `while(1)` is not modelled as such. The model has one iteration (`Step`, `LoopIteration`) and lemmas over finite runs (`Run`).
- Port registers are not modelled as registers. Column reads are inputs, and the writes to the digit-select and segment ports are returned as traces; `ScanKeys` returns the row-port writes of one scan. How the column nibble is wired to the upper half of PORTC is abstracted.
- No scan's row-port writes reach the loop-level trace. `HandleKeys` and `LoopIteration` keep only the decoded key of the first and of the reconfirming scan, and `LoopIteration` returns only the multiplex pass. The row writes of a single scan are stated by `ScanKeys` alone.
- Display.Percentage: integer division `count*100/total` replaces the single-precision float expression. Float rounding can differ from the exact quotient by one in edge cases such as 29/100.
- Display.Percentage: a quotient above 65535 is not truncated to 16 bits. The source's float-to-`unsigned int` cast of such a value is undefined. It can only arise after `totalPulses` has wrapped past 2^32 presses.
- `displayMode` is a boolean. The source stores it as a char holding 0 or 1, which `!` toggles.
