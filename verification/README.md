# Boot-loader driver models

Dafny models of the second-stage boot loader's drivers, and proofs about them. The drivers
work step by step on registers, so each is a class or a method with the loops of the C code,
proved against a function or a predicate; the lemmas then say what that function is good for.

| file | models |
|---|---|
| `WordFields.dfy`, `Gpio.dfy`, `GpioPins.dfy` | the batched pin set-up: a write-back cache of four registers against plain read-modify-writes, and what every pin ends up with |
| `Bytes.dfy`, `PmicTable.dfy`, `Pmic.dfy`, `PmicRamp.dfy`, `PmicChips.dfy` | the voltage codec over any table, the ramp of a live rail, and the tables of nine PMIC chips |
| `SpiNor.dfy`, `SpiClock.dfy` | opcode and address-width selection, chunked reads and burst counters against a flash that decodes what it is sent; the two-stage clock |
| `BigNumWords.dfy`, `BigNumArrays.dfy` | the word macros of the big-number code, for word sizes of 8 to 64 bits, and the loop over arrays |
| `BigNumDivision.dfy`, `BigNumbers.dfy`, `BigNumDecimal.dfy` | division by a word with half-word estimates, shifting and dividing numbers in place, and their decimal spelling |
| `HashPadding.dfy`, `RsaBytes.dfy` | in-place message padding and the byte order of RSA operands |
| `I2cMaster.dfy` | the I2C master against a controller that may answer anything |
| `DmaChannels.dfy`, `DrmBitmap.dfy`, `KeyProvision.dfy` | channel allocation and interrupt bookkeeping, the DRM page bitmap and region sizes, key provisioning over many boots |
| `CacheAlign.dfy` | the aligned-buffer macro |
| `Numbers.dfy` | division facts and byte order shared by the others |

Where the code misses what it is for, the code is modelled as it is and the exact condition
under which it does its work is proved:

- the pin batch looks at the R bank only for the first entry, and does not skip a negative
  select of the first entry (`GpioPins.RoutingExact`, `GpioPins.FirstSelectExact`);
- two PMIC tables do not cover their own range (`PmicChips.Axp221Dcdc3`, `PmicChips.Axp809Aldo3`),
  so a ramp of the SYS rail to 1560 mV or more drops it (`PmicChips.Axp221Dcdc3Ramp`), and a
  ramp from a disabled rail jumps (`PmicRamp.RampJumplessExactly`);
- the dual-line 4-byte flash command is received on one line (`SpiNor.ReadDeliversExactly`);
- one SoC layout reads the SPI divider back from the wrong place (`SpiClock.ReadBackExact`), so a
  request below a sixteenth of the source keeps its clock only under an exact condition
  (`SpiClock.WindowExactly`);
- a stale ACK bit acknowledges a single received byte (`I2cMaster.ReadUnderstood`);
- the DMA start-up does not clear the second interrupt register (`DmaChannels.DmaEngine.Init`);
- a DRM region across a 1 GiB boundary is not protected as a whole (`DrmBitmap.ProtectsExactly`), and
  region sizes that are not powers of two are rounded (`DrmBitmap.SizeFieldExact`);
- with 16-bit words the decimal block size does not fit a word (`BigNumDecimal.ToDecimal`);
- an interrupted provisioning run mixes into the next key (`KeyProvision.KeyIsRandomExactly`,
  `KeyProvision.InterruptedMixes`, `KeyProvision.RunContents`).

## Model

| member | source | states |
|---|---|---|
| Gpio.PinController.BootSetGpio | lichee/brandy-2.0/spl/drivers/pinmux.c:73-239 | the cached, batched update leaves exactly the registers of four read-modify-writes per pin over the entries between the leading and the next empty entry, in order; returns -1 exactly when there is none |
| Gpio.PinController.Flush | lichee/brandy-2.0/spl/drivers/pinmux.c:166-176 | after a flush all four registers hold the cached values, the data register too although it is written only if changed; all others are as before and nothing is left pending |
| Gpio.PinController.Switch | lichee/brandy-2.0/spl/drivers/pinmux.c:157-226 | moving to the next entry reloads what changed and loses no pending write |
| Gpio.CacheHit | lichee/brandy-2.0/spl/drivers/pinmux.c:196-226 | updating the cached copies and flushing equals applying the pin to flushed memory: the cache refines plain memory |
| Gpio.AddressesDistinct | lichee/brandy-2.0/spl/include/arch/gpio.h:250-311 | no two (bank, kind, port, index) combinations share a register address, in either layout |
| GpioPins.SettingAddressIs | lichee/brandy-2.0/spl/include/arch/gpio.h:250-311 | the address macros name the word in which the layout of a port puts the setting |
| Gpio.FieldsDistinct | lichee/brandy-2.0/spl/include/arch/gpio.h:250-311 | within a register, different pins have different fields |
| GpioPins.FieldAfterRun | lichee/brandy-2.0/spl/drivers/pinmux.c:196-226 | any register field holds what its last writer put there, or its first value |
| GpioPins.PinsAfterRun | lichee/brandy-2.0/spl/drivers/pinmux.c:73-239 | after a list every pin has, for each kind, the field of its last entry that sets it, or its first field |
| GpioPins.PinNumbersAfterRun | lichee/brandy-2.0/spl/drivers/pinmux.c:73-239 | read bit by bit at its place in the register, that setting is the number in the list: the select modulo 16 or 8, pull and drive modulo 4, data modulo 2 |
| GpioPins.RestAfterRun | lichee/brandy-2.0/spl/drivers/pinmux.c:73-239 | any bit of any register that no field of the list holds is kept |
| GpioPins.RouteShape | lichee/brandy-2.0/spl/drivers/pinmux.c:100-194 | which bank each entry is written to: the R bank only while the first entry is in it and the group has not changed |
| GpioPins.RoutingExact | lichee/brandy-2.0/spl/drivers/pinmux.c:100-194 | the batch writes every pin in its own bank, for all settings of the same pins and all memories, if and only if every entry of a port from 12 on shares the first entry's select group |
| GpioPins.WellRoutedAgrees | lichee/brandy-2.0/spl/drivers/pinmux.c:100-194 | lists that meet the condition agree with the per-pin form, for every memory |
| GpioPins.MisroutedDisagrees | lichee/brandy-2.0/spl/drivers/pinmux.c:177-205 | every list that breaks the condition has settings for which the batch leaves a pin untouched that the per-pin form makes an output |
| GpioPins.FirstSelectExact | lichee/brandy-2.0/spl/drivers/pinmux.c:121-197 | forcing the select field of the first entry (its negative setting is not skipped) is invisible for all memories if and only if it is not negative or the same pin is selected again later |
| GpioPins.ForcedConfined | lichee/brandy-2.0/spl/drivers/pinmux.c:121-197 | what the forcing can change is the select field of the first pin, and nothing else |
| GpioPins.ForcedDisagrees | lichee/brandy-2.0/spl/drivers/pinmux.c:121-197 | otherwise some memory shows the difference |
| WordFields.OtherFieldKept | lichee/brandy-2.0/spl/drivers/pinmux.c:196-226 | a masked read-modify-write keeps every other field of the register |
| Pmic.PmicBus.SetRail | lichee/brandy-2.0/spl/drivers/power/axp152.c:84-153 | encodes and enables a rail: the register states passed through are those of its writes in order, all of them if and only if no bus access failed, and else those before the failure |
| Pmic.PmicBus.GetRail | lichee/brandy-2.0/spl/drivers/power/axp152.c:155-202 | reads the rail voltage: 0 when disabled, -1 for an unused code, and -1 for a bus failure only |
| Pmic.PmicBus.EncodeByte | lichee/brandy-2.0/spl/drivers/power/axp152.c:99-133 | the encoding loop computes the specified register byte, with the eight-bit running base |
| Pmic.PmicBus.DecodeByte | lichee/brandy-2.0/spl/drivers/power/axp152.c:176-201 | the decoding loop returns the voltage of the code's position in the table, and -1 exactly for positions beyond it |
| PmicTable.EncodeIsFloor | lichee/brandy-2.0/spl/drivers/power/axp152.c:99-124 | the encoded code is the one of the largest representable voltage not above the request, across gaps |
| PmicTable.FloorUnique | lichee/brandy-2.0/spl/drivers/power/axp152.c:99-124 | and it is the only such code |
| PmicTable.EncodeDecode | lichee/brandy-2.0/spl/drivers/power/axp152.c:176-201 | encoding a decoded code gives the code back |
| PmicTable.DecodeIncreasing | lichee/brandy-2.0/spl/drivers/power/axp152.c:176-201 | higher codes are higher voltages |
| PmicTable.EncodeMonotone | lichee/brandy-2.0/spl/drivers/power/axp152.c:99-124 | higher requests never get lower codes |
| PmicTable.EncodeAdvance | lichee/brandy-2.0/spl/drivers/power/axp152.c:99-124 | raising a request by at most the smallest step advances the code by at most one |
| Pmic.NewByteEncodes | lichee/brandy-2.0/spl/drivers/power/axp152.c:99-133 | the new register byte decodes to the encoded position, complemented tables included, and bits outside the mask are kept |
| Pmic.EncodeServesExactly | lichee/brandy-2.0/spl/drivers/power/axp152.c:92-133 | decoding the encoded byte gives the largest representable voltage not above the clamped request, if and only if the table covers the clamped request (or its one fallback code happens to be the right one) |
| Pmic.DecodeThenEncode | lichee/brandy-2.0/spl/drivers/power/axp152.c:84-202 | writing back the decoded voltage of an enabled rail leaves its code where it was |
| Pmic.WriteEncodes | lichee/brandy-2.0/spl/drivers/power/axp152.c:84-153 | a write moves the rail to the encoded code and sets, clears or keeps the enable bit |
| Pmic.WriteFrame | lichee/brandy-2.0/spl/drivers/power/axp152.c:84-153 | a write changes no bit outside the rail's field and enable bit |
| Pmic.RailsIndependent | lichee/brandy-2.0/spl/drivers/power/axp152.c:84-202 | writing one rail changes neither the code nor the voltage read from a rail with disjoint bits |
| PmicRamp.Ramp | lichee/brandy-2.0/spl/drivers/power/axp152.c:205-236 | for every row: the register states passed through are those of the requests from the voltage read to the target, one by one, and it stops part way if and only if a write fails; on a live rail every write moves by at most one code, towards the target; without a step size nothing is written |
| PmicRamp.WalkPasses | lichee/brandy-2.0/spl/drivers/power/axp152.c:205-236 | the state after each request is one of those the walk passes through, in order |
| PmicRamp.RequestIndex | lichee/brandy-2.0/spl/drivers/power/axp152.c:215-233 | request k is k smallest steps from the start; the last is the last on this side of the target |
| PmicRamp.LastRequest | lichee/brandy-2.0/spl/drivers/power/axp152.c:215-233 | the last requested voltage is within less than one step of the target, on the near side, and equals it when the step divides the distance |
| PmicRamp.CodesAreRegisters | lichee/brandy-2.0/spl/drivers/power/axp152.c:205-236 | after any number of requests the register holds the code of the abstract walk |
| PmicRamp.LiveRampStep | lichee/brandy-2.0/spl/drivers/power/axp152.c:205-236 | every write of a live ramp moves the code by at most one position, towards the target, and never past it |
| PmicRamp.StrideStep | lichee/brandy-2.0/spl/drivers/power/axp152.c:205-236 | the same for strides of several smallest steps, with that many codes |
| PmicRamp.LiveRampEnd | lichee/brandy-2.0/spl/drivers/power/axp152.c:205-236 | a finished ramp is at most one code from the target's code, and exactly on it when the step divides the distance |
| PmicRamp.WalkTowards | lichee/brandy-2.0/spl/drivers/power/axp152.c:205-236 | so does every single register write of any number of requests, for any stride |
| PmicRamp.RampJumplessExactly | lichee/brandy-2.0/spl/drivers/power/axp152.c:173-236 | the walk moves at most one code at a time if and only if the rail was live, or no second request follows, or its code was already at most 1 |
| PmicRamp.DeadRamp | lichee/brandy-2.0/spl/drivers/power/axp152.c:173-236 | a ramp from a disabled rail jumps exactly when a second request follows and its code was above 1 |
| PmicRamp.FirstWriteEnables | lichee/brandy-2.0/spl/drivers/power/axp152.c:173-236 | the first write of a ramp up from a disabled rail only switches it on, at the code it had |
| PmicRamp.ShortRampExactly | lichee/brandy-2.0/spl/drivers/power/axp152.c:205-236 | over a table that ends below its row's range a live ramp moves by at most one code a write if and only if no request lies above the table |
| PmicChips.Axp152WellFormed | lichee/brandy-2.0/spl/drivers/power/axp152.c:14-45 | all ten tables are well formed for encoding, decoding and the ramp |
| PmicChips.Axp152Independent | lichee/brandy-2.0/spl/drivers/power/axp152.c:14-45 | no two rails share a bit, the two halves of register 0x28 included |
| PmicChips.Axp81XWellFormed | lichee/brandy-2.0/spl/drivers/power/axp81X.c:16-27 | all tables are well formed |
| PmicChips.Axp221WellFormed | lichee/brandy-2.0/spl/drivers/power/axp221.c:16-27 | all tables but dcdc3 are well formed |
| PmicChips.Axp221Dcdc3 | lichee/brandy-2.0/spl/drivers/power/axp221.c:21-22 | requests are served if and only if they are at most 1540 mV; above, the lowest voltage is programmed |
| PmicChips.Axp221Dcdc3Ramp | lichee/brandy-2.0/spl/drivers/power/axp221.c:235-266 | a live ramp of the SYS rail moves by at most one code a write if and only if its target is below 1560 mV; the request for 1560 mV drops the rail from its top |
| PmicChips.Axp1530WellFormed | lichee/brandy-2.0/spl/drivers/power/axp1530.c:17-33 | all tables are well formed |
| PmicChips.DdrRamp | lichee/brandy-2.0/spl/drivers/power/axp1530.c:187-201 | the loop tries the requests in strides of 50 mV one by one, going on when a write fails; the states passed through are those of the writes that went through, no bit of another rail is touched, and if none failed on a live rail every write moves by at most five codes, towards the target |
| PmicChips.Axp1530DdrRamp | lichee/brandy-2.0/spl/drivers/power/axp1530.c:187-201 | on a live rail every write moves by at most five codes, towards the target and never past it; the end is within five codes of the target, and on it for whole strides |
| PmicChips.Axp806WellFormed | lichee/brandy-2.0/spl/drivers/power/axp806.c:15-61 | all tables are well formed, those that fill their code space included |
| PmicChips.Axp858WellFormed | lichee/brandy-2.0/spl/drivers/power/axp858.c:15-34 | all tables are well formed |
| PmicChips.Axp2101WellFormed | lichee/brandy-2.0/spl/drivers/power/axp2101.c:18-31 | all tables are well formed |
| PmicChips.Axp2202WellFormed | lichee/brandy-2.0/spl/drivers/power/axp2202.c:19-57 | all tables are well formed |
| PmicChips.Axp809WellFormed | lichee/brandy-2.0/spl/drivers/power/axp809.c:19-33 | all tables but aldo3 are well formed |
| PmicChips.Axp809Aldo3 | lichee/brandy-2.0/spl/drivers/power/axp809.c:30-31 | requests are served if and only if they lie within 1000 to 2550 mV |
| PmicChips.Axp809Aldo3Spills | lichee/brandy-2.0/spl/drivers/power/axp809.c:30-31 | a request below the table spills outside the register mask |
| SpiNor.Driver.Init | lichee/brandy-2.0/spl/drivers/spinor/spinor.c:343-427 | command, address mode and the mode of the flash after a start, for every header and every outcome of the two unchecked transfers; the command uses the number of lines the header asks for; a start fails if and only if a checked transfer does, and then changes nothing |
| SpiNor.ReachesAllExactly | lichee/brandy-2.0/spl/drivers/spinor/spinor.c:360-427 | after a start from reset the whole flash of the header can be addressed if and only if it has at most 16 MiB, or 4-byte mode was reported and it has at most 4 GiB |
| SpiNor.InitConsistentExactly | lichee/brandy-2.0/spl/drivers/spinor/spinor.c:360-427 | after a start from reset, address bytes, opcode and flash mode agree if and only if the flash ended in 3-byte mode or its configuration byte was asked for and came through |
| SpiNor.CommandDecodes | lichee/brandy-2.0/spl/drivers/spinor/spinor.c:465-487 | the flash decodes the command bytes of a consistent driver as a read from the intended address |
| SpiNor.Driver.ReadSectors | lichee/brandy-2.0/spl/drivers/spinor/spinor.c:489-519 | the chunks tile the buffer, each is what the flash answers to its command, the counters of every chunk leave exactly its bytes to receive, and nothing behind the buffer is written |
| SpiNor.ReadDelivers | lichee/brandy-2.0/spl/drivers/spinor/spinor.c:489-519 | a consistent driver fills the buffer with exactly the flash contents of the sector range |
| SpiNor.DualReadFails | lichee/brandy-2.0/spl/drivers/spi.c:391-414 | the dual-line 4-byte command is received on one line: on a striped flash the first byte is wrong |
| SpiNor.Driver.ReadChunk | lichee/brandy-2.0/spl/drivers/spinor/spinor.c:497-516 | for every command the counters of a chunk survive their 24-bit masks |
| SpiNor.ReadDeliversExactly | lichee/brandy-2.0/spl/drivers/spinor/spinor.c:465-519 | for a consistent driver and any contents, reads deliver the flash if and only if the command is not the dual-line 4-byte one |
| SpiNor.StartAndRead | lichee/brandy-2.0/spl/drivers/spinor/spinor.c:382-519 | from header, flash and transfer outcomes to bytes: a start and a read fill the buffer with the flash's contents |
| SpiNor.StartReadsExactly | lichee/brandy-2.0/spl/drivers/spinor/spinor.c:343-519 | for every header and outcome, and whatever the contents, that is so if and only if driver and flash agree and the command is not the dual-line 4-byte one |
| SpiNor.Driver.SetCounts | lichee/brandy-2.0/spl/drivers/spi.c:310-329 | the 24-bit counters leave the wanted number of bytes to receive if and only if the total fits |
| SpiNor.Driver.ModeCheck | lichee/brandy-2.0/spl/drivers/spi.c:391-414 | lines and single-line count set for a command |
| SpiNor.Driver.ReadXfer | lichee/brandy-2.0/spl/drivers/spi.c:903-982 | the counters leave the wanted bytes if and only if the total fits; a completed transfer hands over what the flash answers on the lines set |
| SpiClock.ClkInit | lichee/brandy-2.0/spl/drivers/spi.c:547-585 | the divider pair is in range, its product covers the ratio as closely as its power allows, and ratios above 128 are refused |
| SpiClock.GetClk | lichee/brandy-2.0/spl/drivers/spi.c:609-639 | of a word of the common layout the true module clock, of one of the other layout the clock without the power-of-two divider |
| SpiClock.WordGives | lichee/brandy-2.0/spl/drivers/spi.c:547-606 | the hardware reads from the word written the clock of the divider pair chosen |
| SpiClock.SetClk | lichee/brandy-2.0/spl/drivers/spi.c:163-188 | the hardware reads from the register written the fewest halvings that bring the clock to the request, if there are fewer than 16, and else their low four bits with the selection bit set; all bits beside the divider are kept |
| SpiClock.Cdr1Read | lichee/brandy-2.0/spl/drivers/spi.c:163-188 | what the hardware reads from a register with the exponent put in; from 16 on the exponent spills into the selection bit |
| SpiClock.TwoStages | lichee/brandy-2.0/spl/drivers/spi.c:163-188 | the first stage overshoots by less than an eighth, the second then halves at most once, and the clock ends between half the request and the request |
| SpiClock.ReadBackExact | lichee/brandy-2.0/spl/drivers/spi.c:547-639 | the register reads back the true clock if and only if the layout writes the power where it is read, or the power is not used |
| SpiClock.WindowExactly | lichee/brandy-2.0/spl/drivers/spi.c:163-639 | for every source and request, on either layout: the final clock is between half the request and the request if and only if the layout is the common one, or the request needs no power-of-two divider, is 1 Hz, or is halved once with a misread clock of about twice the request |
| SpiClock.LostPower | lichee/brandy-2.0/spl/drivers/spi.c:547-639 | the same in terms of the misread clock and the halvings counted twice |
| SpiClock.Configure | lichee/brandy-2.0/spl/drivers/spi.c:536-751 | clock set-up composed with the bus claim: the clock the hardware makes of the two registers written is in the window if and only if the layout is the common one or the request survives |
| BigNumWords.Mul64 | lichee/brandy-2.0/spl/include/openssl/bn_lcl.h:225-241 | the half-word product is the full double-word product, for every word size |
| BigNumWords.MulAddHalf | lichee/brandy-2.0/spl/include/openssl/bn_lcl.h:260-273 | half-word multiply-add: result plus carry times the base is r + a*w + c, both below the base |
| BigNumWords.MulHalf | lichee/brandy-2.0/spl/include/openssl/bn_lcl.h:276-288 | half-word multiply with carry, exact |
| BigNumWords.MulAddLLong | lichee/brandy-2.0/spl/include/openssl/bn_lcl.h:134-139 | double-width multiply-add, exact |
| BigNumWords.MulLLong | lichee/brandy-2.0/spl/include/openssl/bn_lcl.h:141-146 | double-width multiply, exact |
| BigNumWords.MulAddUMult | lichee/brandy-2.0/spl/include/openssl/bn_lcl.h:156-204 | high-product multiply-add, exact |
| BigNumWords.MulUMult | lichee/brandy-2.0/spl/include/openssl/bn_lcl.h:168-204 | high-product multiply, exact |
| BigNumWords.Sqr64 | lichee/brandy-2.0/spl/include/openssl/bn_lcl.h:243-258 | the half-word square is exact although its doubled middle product overflows a word |
| BigNumWords.SqrLLong | lichee/brandy-2.0/spl/include/openssl/bn_lcl.h:148-153 | double-width square, exact |
| BigNumWords.DoubledMiddle | lichee/brandy-2.0/spl/include/openssl/bn_lcl.h:243-258 | the split at BN_MASK2h1 and BN_MASK2l carries twice the middle product without loss |
| BigNumArrays.MulAdd | lichee/brandy-2.0/spl/include/openssl/bn_lcl.h:133-289 | whichever form is compiled, multiply-add gives the same two words |
| BigNumArrays.FormsAgree | lichee/brandy-2.0/spl/include/openssl/bn_lcl.h:133-289 | two words are determined by the value they make up |
| BigNumWords.ThreadedValue | lichee/brandy-2.0/spl/include/openssl/bn_lcl.h:133-289 | threading the carry through arrays of any length gives value(r) + value(a)*w + c, in words and with a carry that is a word |
| BigNumArrays.MulAddWords | lichee/brandy-2.0/spl/sboot/openssl/bn/bn_asm.c:65-92 | the loop over arrays, in place and with any form: value(r) + value(a)*w, all results words |
| BigNumDivision.DivWords | lichee/brandy-2.0/spl/sboot/openssl/bn/bn_asm.c:225-289 | the quotient of a two-word number by a word is exact, for every word size |
| BigNumDivision.Estimate | lichee/brandy-2.0/spl/sboot/openssl/bn/bn_asm.c:243-266 | half a word of quotient: the correction loop stops at the exact one |
| BigNumDivision.EstimateAbove | lichee/brandy-2.0/spl/sboot/openssl/bn/bn_asm.c:245-252 | the estimate from the upper half of the divisor is never too small |
| BigNumDivision.GuardExact | lichee/brandy-2.0/spl/sboot/openssl/bn/bn_asm.c:254-262 | the loop goes on exactly while the quotient is too large |
| BigNumDivision.Subtract | lichee/brandy-2.0/spl/sboot/openssl/bn/bn_asm.c:267-278 | the subtraction with its borrow is exact, and its last correction is never needed |
| BigNumDivision.TwoRounds | lichee/brandy-2.0/spl/sboot/openssl/bn/bn_asm.c:243-288 | two half words of quotient make up the quotient |
| BigNumDivision.NumBitsWord | lichee/brandy-2.0/spl/sboot/openssl/bn/bn_word.c:122-182 | the number of significant bits |
| BigNumbers.BigNum.LShift | lichee/brandy-2.0/spl/sboot/openssl/bn/bn_shift.c:134-165 | shifting in place multiplies by the power of two, whole words and bits, and leaves no zero word on top |
| BigNumbers.MoveOne | lichee/brandy-2.0/spl/sboot/openssl/bn/bn_shift.c:151-157 | one word shifted in: bits go only where there were none |
| BigNumbers.BigNum.DivWord | lichee/brandy-2.0/spl/sboot/openssl/bn/bn_word.c:199-235 | value(a) = value(result)*w + remainder with the remainder below w, and no zero word on top; nothing changes for a zero divisor or without memory |
| BigNumbers.DivideOne | lichee/brandy-2.0/spl/sboot/openssl/bn/bn_word.c:219-228 | one word of the division, and why at most one zero word is left on top |
| BigNumbers.BigNum.CorrectTop | lichee/brandy-2.0/spl/include/openssl/bn.h:625-634 | zero words on top are dropped, the value is kept |
| BigNumDecimal.ToDecimal | lichee/brandy-2.0/spl/sboot/openssl/bn/bn_print.c:103-166 | the decimal string has no leading zero, and denotes the number if and only if words are not of 16 bits or it is below 34464 |
| BigNumDecimal.PrintValue | lichee/brandy-2.0/spl/sboot/openssl/bn/bn_print.c:144-156 | the printed blocks, padded, denote the blocks read in the decimal base |
| BigNumDecimal.WrongBase | lichee/brandy-2.0/spl/sboot/openssl/bn/bn_print.c:139-144 | blocks cut by a smaller base denote too much, unless there is one only |
| I2cMaster.Twi.Read | lichee/brandy-2.0/spl/drivers/i2c.c:299-353 | for every controller: success means that it reported every byte acknowledged, that the complete read transfer was sent and that the bytes on the bus are in the buffer; a failure means a wrong status or a wait given up, at the first such answer, after a prefix of the transfer; then a STOP request; polls are bounded linearly in the length |
| I2cMaster.Twi.Write | lichee/brandy-2.0/spl/drivers/i2c.c:385-430 | the same for writes |
| I2cMaster.Twi.GetData | lichee/brandy-2.0/spl/drivers/i2c.c:232-297 | all bytes are acknowledged but the last, and the controller reported so |
| I2cMaster.Twi.SendPreamble | lichee/brandy-2.0/spl/drivers/i2c.c:107-185 | start, slave address and register bytes, each acknowledged, up to the first that is not |
| I2cMaster.ReadUnderstood | lichee/brandy-2.0/spl/drivers/i2c.c:299-353 | a slave with register addresses of the given width understands the transfer as a read of the right register if and only if several bytes were read or the ACK bit was clear before (sections 3.1.6 and 3.1.10 of NXP UM10204) |
| I2cMaster.WriteUnderstood | lichee/brandy-2.0/spl/drivers/i2c.c:385-430 | a slave of the given width understands a write as the right register and bytes |
| I2cMaster.RegisterNumber | lichee/brandy-2.0/spl/drivers/i2c.c:317-332 | the register bytes are the low one to three bytes of the address, most significant first |
| HashPadding.ShaPadding | lichee/brandy-2.0/spl/drivers/secure/ce.c:25-192 | in-place padding leaves the message, appends the padding of section 5.1.1 of FIPS 180-4 or of sections 3.1 and 3.2 of RFC 1321, and touches nothing behind it, in all three length cases |
| HashPadding.PaddedSize | lichee/brandy-2.0/spl/drivers/secure/ce.c:25-192 | the size returned is the least multiple of 64 that holds data, marker and length |
| HashPadding.PutLength | lichee/brandy-2.0/spl/drivers/secure/ce.c:25-116 | the two length words are stored in the byte order of the hash |
| HashPadding.SwapReverses | lichee/brandy-2.0/spl/drivers/secure/ce.c:14-23 | the swap reverses the bytes of a word |
| HashPadding.SwapInvolution | lichee/brandy-2.0/spl/drivers/secure/ce.c:14-23 | swapping twice gives the word back |
| HashPadding.UnpadPadded | lichee/brandy-2.0/spl/drivers/secure/ce.c:118-192 | the message can be recovered from the padded blocks, for every length below 2^61 |
| HashPadding.PaddingInjective | lichee/brandy-2.0/spl/drivers/secure/ce_2.1.c:30-103 | different messages never pad to the same blocks |
| RsaBytes.RsaPadding | lichee/brandy-2.0/spl/drivers/secure/ce.c:195-204 | the group is the reversed data behind zeros; data longer than the group copies nothing |
| RsaBytes.GroupNumber | lichee/brandy-2.0/spl/drivers/secure/ce.c:195-204 | the group's little-endian number is the data's big-endian number times 256 for every unused byte |
| RsaBytes.GroupPreservesExactly | lichee/brandy-2.0/spl/drivers/secure/ce_2.1.c:105-113 | the number is preserved if and only if the group is filled or the number is zero |
| RsaBytes.GroupInvolution | lichee/brandy-2.0/spl/drivers/secure/ce.c:195-204 | with equal lengths, padding in and out restores the bytes |
| DmaChannels.DmaEngine.Init | lichee/brandy-2.0/spl/drivers/sunxi_dma.c:67-116 | all channels free, counter zero; the invariant holds if and only if no stale enable bit is left in the second register, which is not cleared |
| DmaChannels.DmaEngine.Exit | lichee/brandy-2.0/spl/drivers/sunxi_dma.c:118-158 | no used channel, no enabled bit, counter zero |
| DmaChannels.DmaEngine.Request | lichee/brandy-2.0/spl/drivers/sunxi_dma.c:175-188 | the lowest free channel, or 0 if none |
| DmaChannels.DmaEngine.RequestFromLast | lichee/brandy-2.0/spl/drivers/sunxi_dma.c:160-173 | the highest free channel, or 0 if none |
| DmaChannels.DmaEngine.EnableInt | lichee/brandy-2.0/spl/drivers/sunxi_dma.c:311-338 | sets exactly that channel's bit, if used, and no other bit of either register; the counter stays the number of enabled bits |
| DmaChannels.DmaEngine.DisableInt | lichee/brandy-2.0/spl/drivers/sunxi_dma.c:340-369 | clears exactly that bit; the guard against a zero counter never fires |
| DmaChannels.DmaEngine.Release | lichee/brandy-2.0/spl/drivers/sunxi_dma.c:190-203 | frees the channel and disables its interrupt; refuses a free one |
| DmaChannels.StepBalanced | lichee/brandy-2.0/spl/drivers/sunxi_dma.c:160-203 | each call keeps the live handles equal to the used channels, their number equal to grants minus releases, and never grants a live handle |
| DmaChannels.HandlesBalanced | lichee/brandy-2.0/spl/drivers/sunxi_dma.c:160-203 | so it is over every run of calls |
| DmaChannels.RequestFailsExactly | lichee/brandy-2.0/spl/drivers/sunxi_dma.c:160-188 | a request fails, from either end, if and only if every channel is used |
| DmaChannels.CountUpdate | lichee/brandy-2.0/spl/drivers/sunxi_dma.c:311-369 | changing one bit changes the count by that bit |
| DrmBitmap.DrmDevice.Config | lichee/brandy-2.0/spl/drivers/secure/smc.c:187-271 | for every memory and region size: exactly the bits of the megabyte-rounded run are set, where addresses beyond 20 bits start over, and the bank is the one of the top of memory; the bus addresses protected are the last ones below the end of memory if and only if the sizes allow it |
| DrmBitmap.OneBankProtects | lichee/brandy-2.0/spl/drivers/secure/smc.c:187-271 | a region inside one bank is protected page by page, and nothing else is |
| DrmBitmap.ProtectsExactly | lichee/brandy-2.0/spl/drivers/secure/smc.c:220-244 | for all sizes, the protected pages are the region if and only if it is empty, or inside one of the first three banks, or whole banks asked of a DRAM of exactly one |
| DrmBitmap.AddressesExactly | lichee/brandy-2.0/spl/drivers/secure/smc.c:187-271 | the same for bus addresses: those of the region, counted down from the end of memory, and no others |
| DrmBitmap.CalcTwoPower | lichee/brandy-2.0/spl/drivers/secure/smc.c:12-21 | the position of the highest bit set, and 0 for 0 |
| DrmBitmap.SizeField | lichee/brandy-2.0/spl/drivers/secure/smc.c:81-85 | the size field encodes the power of two at or just below the size, 32 KiB at least |
| DrmBitmap.SizeFieldExact | lichee/brandy-2.0/spl/drivers/secure/smc.c:81-85 | the encoded size is the region's size if and only if it is a power of two of at least 32 KiB |
| KeyProvision.SidDevice.Provision | lichee/brandy-2.0/spl/board/sun8iw20p1/board.c:98-138 | nothing happens when the shadow shows the protect bit; otherwise six key words and then the protect word are burnt one by one: the fuses after the n-th write are what a cut after n writes leaves, and are sealed only over a key wholly written |
| KeyProvision.PassedRight | lichee/brandy-2.0/spl/board/sun8iw20p1/board.c:98-138 | every fuse state passed through is what a power loss there leaves; with a true shadow the sealed ones hold every bit of the key |
| KeyProvision.SidDevice.ProgramKey | lichee/brandy-2.0/spl/drivers/secure/efuse.c:54-87 | the fuse word becomes the least one with its old bits and the value's: no fuse is cleared, no other is set, no other word is touched |
| KeyProvision.WritesExactly | lichee/brandy-2.0/spl/board/sun8iw20p1/board.c:98-138 | the fuses after any number of the writes of one run, word by word, and the shadow that shows them |
| KeyProvision.RunGrows | lichee/brandy-2.0/spl/board/sun8iw20p1/board.c:98-138 | over any run of calls, cuts and power cycles no burnt fuse is ever unburnt and the shadow stays true |
| KeyProvision.SealedForever | lichee/brandy-2.0/spl/board/sun8iw20p1/board.c:98-138 | once the protect fuse is set no later run changes any fuse |
| KeyProvision.CompletedCall | lichee/brandy-2.0/spl/board/sun8iw20p1/board.c:98-138 | a completed call stores the first 24 random bytes on top of what was burnt, keeps other protect bits and all other words |
| KeyProvision.SecondCallIdle | lichee/brandy-2.0/spl/board/sun8iw20p1/board.c:98-138 | a second call in the same boot burns nothing |
| KeyProvision.KeyIsRandomExactly | lichee/brandy-2.0/spl/board/sun8iw20p1/board.c:98-138 | a completed call stores exactly the first 24 bytes generated, whatever they are, if and only if the key fuses were blank |
| KeyProvision.InterruptedMixes | lichee/brandy-2.0/spl/board/sun8iw20p1/board.c:98-138 | a run with a power loss after the first write, whose key is neither of the two generated |
| KeyProvision.RunContents | lichee/brandy-2.0/spl/board/sun8iw20p1/board.c:98-138 | over any run: the fuses are sealed if and only if some event reached the last write, and every key word is exactly what it was with the words burnt up to then on top |
| KeyProvision.SealedContents | lichee/brandy-2.0/spl/board/sun8iw20p1/board.c:98-138 | on blank key fuses every key word is exactly the words collected, one on top of the other |
| KeyProvision.SealedMeansWritten | lichee/brandy-2.0/spl/board/sun8iw20p1/board.c:98-138 | however the power fails, the key words of sealed fuses contain all bits of one generated key |
| CacheAlign.BufferFits | lichee/brandy-2.0/spl/include/cache_align.h:64-77 | wherever the array lies, its aligned part starts and ends inside it, is a multiple of the alignment and holds all elements, with less than one unit and one padding to spare |
| CacheAlign.SpareExactly | lichee/brandy-2.0/spl/include/cache_align.h:64-77 | the spare bytes are used up if and only if the array begins one byte behind an aligned address |
| CacheAlign.RoundUpLeast | lichee/brandy-2.0/spl/include/cache_align.h:64-66 | the mask rounds up to the least multiple that is not below |

## Left out

- Pmic.PmicBus.SetRail: the row is already chosen; lookup by name prefix and the dispatch over chips are thin switches.
- Pmic.PmicBus.DecodeByte: requires a well-shaped row; a table of four pieces has no sentinel in the C array, and the model takes its length as given.
- PmicRamp.Ramp: the running voltage is unbounded; the source stops such a walk only by its bounds.
- PmicChips.DdrRamp: after a failed write the next stride can be twice as large; no bound on the jump is stated for such runs.
- PmicChips.Axp809Aldo3Spills: one concrete request; the family of requests that are not served is the one of `PmicChips.Axp809Aldo3`.
- SpiNor.Driver.Init: quad-enable and status writes after the command is chosen are not modelled; a lost switch command is taken to leave the flash alone.
- SpiNor.Driver.ReadXfer: FIFO and DMA polling is one success or failure; counters that do not fit are taken as a transfer that never completes; the quad bit is taken to win over the dual bit.
- SpiNor.Driver.ReadSectors: byte addresses stay below 4 GiB, beyond which the C arithmetic wraps.
- SpiNor.CommandDecodes: the flash knows the six read opcodes the driver can choose, no others.
- SpiClock.SetClk: the CDR2 divider is never chosen by the callers and is left out; a request of 0 is excluded.
- SpiClock.Configure: requests above the source are excluded; pin set-up, gating and reset of the SPI controller are left out.
- I2cMaster.Twi.Read: clearing the interrupt flag is one action per byte; lengths below 1 and the register variant of two older SoCs are left out, as are bus recovery and the clock divider.
- I2cMaster.Twi.Write: the same restrictions as for reads.
- BigNumWords.Mul64: a word is exactly BN_BITS2 wide; a wider `unsigned long` with 32-bit masks is not modelled.
- BigNumArrays.MulAddWords: the loop over word arrays is in the repository only as commented-out code, with its turns written out four at a time.
- BigNumDivision.DivWords: an upper word of exactly twice the divisor, which the assertion in the source lets through for powers of two, is excluded.
- BigNumbers.BigNum.LShift: the array is a sequence that is reallocated when it grows; a destination other than the operand, and the sign, are left out.
- BigNumDecimal.ToDecimal: allocations succeed; the size of the text buffer is left out.
- HashPadding.ShaPadding: the host is little-endian; padded sizes from 4 GiB on, where the C size wraps, are excluded.
- HashPadding.PaddingInjective: lengths whose bit count does not fit the 64-bit field are excluded, as in the standards.
- DmaChannels.DmaEngine.EnableInt: handles are numbers from 1; callbacks, the NULL handle and data movement are left out.
- DmaChannels.DmaEngine.Release: pending-bit writes (`sunxi_dma_free_int` shifts them by the channel instead of four times it) are left out.
- DrmBitmap.DrmDevice.Config: a control word of equal data bits is taken to set as many bits as its length field says; the register variants of other SoCs and DRM_TEST are left out.
- DrmBitmap.SizeField: the loop over regions and the start addresses are left out.
- KeyProvision.SidDevice.Provision: the generator's output is any eight words; its failure is not looked at by the source either.
- KeyProvision.SidDevice.ProgramKey: the control-register handshake, its busy-waits and the programming supply are left out.
- Gpio.PinController.BootSetGpio: registers are plain memory; that a data register can read back pin levels, and the debug output, are left out. Settings are any integers, whatever the signedness of `char`.
- Per-pin set and get functions of the pin driver, the static buffer macro, addition and subtraction of a word, byte conversion of big numbers, the DRAM parameter selector: short, with little beyond one reading.
- Clock, PLL, UART, RTC, watchdog and LRADC set-up, crypto descriptors, cache maintenance: fixed register sequences or hardware behaviour.
- ce_2.3.c and the sun20iw1p1 board file repeat routines modelled here.
