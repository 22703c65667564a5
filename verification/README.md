# Models of the SPL boot library and the embedded printf

The repository is bare-metal bring-up code for an Allwinner RISC-V board. This project models the
parts of it that compute something: the boot heap, the batched pin configuration, the formatting
engines, CRC-32, the gzip header skip, the image checksum, the I2C master, the DMA channel pool,
the SPI clock set-up, and the word-wise `memset` and `memcpy`. Code that changes state in place is
written as methods on classes and arrays; each is tied by its contract to a function of the old
state, and what the code promises is proved about those functions for every input or every run.

| file | models |
|---|---|
| `HeapModel.dfy`, `HeapProofs.dfy`, `HeapBytes.dfy`, `BootHeap.dfy` | the boot heap as a value, what every call and run keeps of the list and of the payload bytes, and the linked list in heap memory |
| `PinMux.dfy`, `PinFields.dfy`, `PinBits.dfy` | `boot_set_gpio` with its shadow registers, what each pin field holds afterwards, and the same by address and bit |
| `CrcTable.dfy`, `Crc32.dfy` | the CRC table and loop against bit-serial division, and error detection |
| `PrintfSpec.dfy`, `PrintfField.dfy`, `PrintfHash.dfy`, `PrintfParse.dfy`, `PrintfRender.dfy`, `PrintfMeaning.dfy`, `TinyPrintf.dfy` | the tiny printf: fields, with '#' too, directive parser, whole formats, what each written directive prints, and the engine with its sinks |
| `SplPrint.dfy` | the SPL printf's and the console's number printers, and their agreement |
| `Gzip.dfy` | the gzip header skip and the header format it accepts |
| `Checksum.dfy` | both versions of the image checksum |
| `I2cProtocol.dfy`, `I2cWrites.dfy`, `I2c.dfy` | the I2C transfers as steps, the register writes they consist of, and the master against an arbitrary controller |
| `DmaPool.dfy` | the DMA channel pool and its interrupt count |
| `SpiClock.dfy` | the three SPI divider functions and the frequency they give |
| `Memory.dfy` | `memset` and `memcpy` |
| `Ints.dfy`, `BitVectors.dfy` | the machine types the others share |

## Where the code departs from what it is for

Each departure is stated with its exact condition; some are also shown on a concrete input.

- `realloc` looks up the node before the block, then calls `malloc`. When first fit puts the new
  node into the gap directly before the block, unlinking the block unlinks the new node as well
  (`HeapProofs.MovedBlockListed`), and a later `malloc` hands the same memory out again
  (`HeapProofs.StalePrevHandsOutTwice`).
- `realloc` adds the request to the old request in 32 bits. When the sum is above 0xFFFFFFF0 and the
  block has to move, the copy of the old payload is longer than the new block
  (`HeapProofs.CopyFitsIff`) and can destroy the header of a live block
  (`HeapProofs.WrappedSumOverrunsHeader`).
- `free` of the heap's end address unlinks the tail, and the chain is a heap no longer
  (`BootHeap.BootHeap.Free`). The run theorems are about the calls that do neither (`HeapProofs.CallOk`).
- A heap whose end wraps at 2^32 is accepted and never serves a request
  (`HeapProofs.BackwardsHeapIsFull`).
- A request above 0xFFFFFFF0 wraps when it is rounded up and gets a block of size 0
  (`HeapProofs.MallocLargeEnoughIff`).
- `boot_set_gpio` chooses the address block by port number for the first entry only
  (`PinMux.HomeBankIff`).
- `sunxi_dma_init` and `sunxi_dma_exit` clear `irq_en0` twice and never `irq_en1`, so the interrupt
  count stays right exactly as long as no init meets an enabled interrupt of a channel from 8 on
  (`DmaPool.RunExclusiveIff`). With ten channels a bit left set by an earlier boot stage is enough to
  make it wrong (`DmaPool.LeftoverBitMiscounts`).
- `crc32` ignores the running value it is given (`Crc32.ChainedCallIsConcatenation`).
- The tiny printf's 32-byte scratch buffer limits zeros and sign, and '-' suppresses the zeros that
  a precision asks for (`PrintfField.IntegerIsIsoIff`); so `%p` prints its sixteen digits only
  for some flags (`PrintfField.PointerDigitsIff`).
- With '#' and no precision a field exactly as wide as its digits loses the highest of them to the
  prefix, so that `%#2x` of 0x12 prints `0x` (`PrintfHash.MarkedIsIsoIff`,
  `PrintfHash.WidthTakesDigits`).
- The SPL printf pads with zeros in front of a minus sign (`SplPrint.PaddedDecimalIsIsoIff`).
- An I2C flag or status that arrives on the very last polling read counts as a timeout
  (`I2c.Bus.AwaitFlag`).
- Before the last of several bytes the I2C read does not set its polling counter again after the
  busy-wait, so that byte is acknowledged only if its status comes within 99 reads instead of 65534
  (`I2c.Bus.GetLast`, `I2c.LateStatusTimesOut`).

## Model

| member | source | states |
|---|---|---|
| HeapModel.InBounds | spl/common/malloc.c:12-18 | in a well-formed heap every header and payload lies inside the heap, strictly above everything earlier in the list |
| HeapProofs.AlignRounds | spl/common/malloc.c:20 | rounding gives the next multiple of 16, except that it wraps to 0 above 0xFFFFFFF0 |
| HeapProofs.MallocKeeps | spl/common/malloc.c:58-100 | malloc keeps the list ordered, disjoint, in bounds and rounded |
| HeapProofs.FreeKeeps | spl/common/malloc.c:181-204 | free keeps it for every address, listed or not, but the end of the heap |
| HeapProofs.ReallocKeeps | spl/common/malloc.c:112-168 | realloc keeps it, in place, by moving, and in the stale case, for every call whose copy fits into the new block and whose address is not the end of the heap |
| HeapProofs.RunKeeps | spl/common/malloc.c:36-204 | every heap reached by any sequence of malloc, free and realloc is well formed, as long as no call frees or reallocates the end address and no moving realloc overruns its new block |
| HeapProofs.MallocComplete | spl/common/malloc.c:63-90 | malloc returns null exactly for an empty request, when no adjacent pair of nodes leaves two headers and the rounded size, or when the node would be at address 0 |
| HeapProofs.MallocTakesLowest | spl/common/malloc.c:67-97 | otherwise it links one block into the lowest gap that fits and changes nothing else |
| HeapProofs.MallocIsFresh | spl/common/malloc.c:85-99 | the block meets no header and no payload already on the list and stays inside the heap |
| HeapProofs.MallocLargeEnoughIff | spl/common/malloc.c:65-95 | the block is at least as large as the request exactly when the request is at most 0xFFFFFFF0 |
| HeapProofs.BackwardsHeapIsFull | spl/common/malloc.c:40-90 | a well-formed heap whose end lies below its start has no blocks, and malloc returns null |
| HeapProofs.FreeUndoesMalloc | spl/common/malloc.c:58-204 | freeing the block just returned gives back exactly the heap before the call |
| HeapProofs.FreeAllEmpties | spl/common/malloc.c:181-204 | freeing every block, in any order, with null, stale and unknown addresses among them, gives back the heap malloc_init made; the end address must not be among them |
| HeapProofs.ReallocAnswers | spl/common/malloc.c:112-168 | what realloc returns on every allowed call: the pointer back for no bytes, null for an unlisted address, for a listed block null exactly when its rounded size changes, the next node is less than size + 48 bytes away and malloc fails, and the pointer back whenever the block can stay; the list is then unchanged but for that block's size and request |
| HeapProofs.MovedBlockListed | spl/common/malloc.c:127-167 | a block moved by realloc, its copy fitting, is on the live list exactly when first fit did not choose the gap directly before the old one; the old address is off the list |
| HeapProofs.StalePrevHandsOutTwice | spl/common/malloc.c:136-165 | a concrete heap on which realloc returns a block and the next malloc returns the same block |
| HeapProofs.GrownSmallerIff | spl/common/malloc.c:144-146 | the size realloc aims for, when it differs, is smaller than the block exactly when the two requests sum to more than 0xFFFFFFF0 and the block has a payload |
| HeapProofs.CopyFitsIff | spl/common/malloc.c:159-164 | so the copy of a moving realloc stays inside the new block exactly under the guard the run theorems use |
| HeapProofs.WrappedSumOverrunsHeader | spl/common/malloc.c:144-164 | a concrete heap on which the copy crosses the header of a listed block |
| HeapProofs.RunTracked | spl/common/malloc.c:36-204 | over every run of those calls that also avoids the stale case the addresses the callers hold are exactly those on the list |
| HeapProofs.HeldBlocksAreDisjoint | spl/common/malloc.c:36-204 | from a fresh heap, after any such run, two held blocks never overlap, headers included, and lie inside the heap |
| HeapBytes.ReallocSize | spl/common/malloc.c:112-168 | after a realloc that is neither stale nor overruns, every listed block has the size it had, and the reallocated one, wherever it is now, the new rounded size |
| HeapBytes.StepBytes | spl/common/malloc.c:36-204 | no call, and no store of a caller into a block of its own, changes a byte of another held block; a reallocated block takes its bytes along |
| HeapBytes.RunBytes | spl/common/malloc.c:36-204 | over every run of such calls and stores a held byte stays as its holder left it, at the address realloc last gave the block, until the block is freed, shrunk below the byte by a wrapped sum, or the byte stored into |
| BootHeap.BootHeap.constructor | spl/common/malloc.c:36-45 | malloc_init makes the empty list between head and tail, the end address summed in 32 bits |
| BootHeap.BootHeap.FindPrev | spl/common/malloc.c:127-137 | the search ends at the node before the one that holds the address, the tail included, or at the tail |
| BootHeap.BootHeap.Malloc | spl/common/malloc.c:58-100 | the chain is the old one with the first-fit block linked in, the result is its address or null, and no payload byte changes |
| BootHeap.BootHeap.Free | spl/common/malloc.c:181-204 | the chain is the old one without the block and no payload byte of the rest changes; it stays a list from head to tail exactly when the address is not the end of the heap, and otherwise ends at the last block |
| BootHeap.BootHeap.Move | spl/common/malloc.c:159-167 | after a move, with the node before the block remembered from before malloc, the new block holds the old payload and all other payloads are unchanged |
| BootHeap.BootHeap.Realloc | spl/common/malloc.c:112-168 | when its copy fits, the result and the list are those of the value-level realloc, the result is the answer above, and the bytes are what the run theorem assumes of a call: every block's payload is untouched, and the first old-size bytes of the result equal the old payload |
| PinMux.StageThrough | spl/drivers/pinmux.c:120-148 | writing fields through the shadow registers commutes with writing the shadows back |
| PinMux.CodeSelFits | spl/drivers/pinmux.c:100-110 | the registers used for an entry are always the entry's own in one of the two address blocks |
| PinMux.PinController.Follow | spl/drivers/pinmux.c:167-190 | the flush rules keep the register file that a write-back now would give |
| PinMux.PinController.BootSetGpio | spl/drivers/pinmux.c:73-239 | for any pin list the register file is the one obtained by skipping leading port-0 entries and then updating each field at once, entry by entry, up to the next port-0 entry; the result is -1 exactly when every port is 0 |
| PinMux.HomeBankIff | spl/drivers/pinmux.c:100-188 | every entry is configured in its own address block exactly when the entries of ports 12 and up come first and share one function register |
| PinFields.AddressTells | spl/include/arch/gpio.h:240-315 | the register addresses are distinct: one address determines the kind of register, the port and the register number |
| PinFields.WriteSets | spl/drivers/pinmux.c:129-139 | a field write leaves exactly the written value in its field |
| PinFields.WriteKeeps | spl/drivers/pinmux.c:129-139 | and leaves every other field of the register alone |
| PinFields.FieldHoldsLastSetting | spl/drivers/pinmux.c:73-239 | after the call every field of every pin, listed or not, holds the setting of the last entry that sets it, or what it held before |
| PinBits.FunctionSelect | spl/drivers/pinmux.c:73-239 | after the call the four function bits of a pin, at their address and position, are the low bits of mul_sel of the last entry for it that is the first of the list or has a mul_sel of at least 0, are 0 instead when set_gpio is 0, and are as before without such an entry |
| PinBits.PullSelect | spl/drivers/pinmux.c:127-133 | the two pull bits are those of the last entry for the pin whose pull is at least 0, or as before |
| PinBits.DriveLevel | spl/drivers/pinmux.c:134-139 | the two drive bits likewise |
| PinBits.DataBit | spl/drivers/pinmux.c:140-148 | the data bit is that of the last entry for the pin with mul_sel 1 and data at least 0, or as before |
| PinBits.OthersKept | spl/drivers/pinmux.c:73-239 | a register that no entry configures keeps its value, for lists of ports 1 to 11 |
| CrcTable.TableIsEightSteps | spl/common/crc32.c:4-48 | each of the 256 table entries is eight register steps with the polynomial 0xEDB88320 from its index |
| Crc32.Crc32_0 | spl/common/crc32.c:50-60 | the loop computes the complement of the fold from all ones |
| Crc32.Crc32 | spl/common/crc32.c:62-65 | so does crc32, whatever running value it is given |
| Crc32.ByteStepIsDivision | spl/common/crc32.c:54-57 | one table look-up is eight steps of bit-serial division |
| Crc32.FoldIsDivision | spl/common/crc32.c:50-60 | for every byte sequence the table-driven loop equals bit-at-a-time reflected division |
| Crc32.FoldAppend | spl/common/crc32.c:54-57 | processing a then b from the carried state is processing a followed by b |
| Crc32.DivideInjective | spl/common/crc32.c:54-57 | registers that differ still differ after any common message |
| Crc32.DetectsBurst | spl/common/crc32.c:50-60 | two different messages of equal length that agree outside some 32 consecutive bits have different CRCs |
| Crc32.DetectsFourBytes | spl/common/crc32.c:50-60 | any change confined to four consecutive bytes is detected |
| Crc32.ChainedCallIsConcatenation | spl/common/crc32.c:62-65 | a second call gives the CRC of the concatenation exactly when the first message's CRC is zero |
| Crc32.Residue | spl/common/crc32.c:50-60 | a message followed by its own CRC, lowest bit first, has the CRC 0x2144DF1C, whatever the message |
| PrintfField.NumeralReads | src/10.peripheral_timer/printf.c:291-298 | the digits of the conversion loop, reversed, denote the value |
| PrintfField.WideEnough | src/10.peripheral_timer/printf.c:50-52 | no 64-bit value needs more than 22 digits in base 8 or above, so the scratch buffer holds them |
| PrintfField.IntegerIsIsoIff | src/10.peripheral_timer/printf.c:199-326 | for every 64-bit value, sign, width, precision and flags without '#', the text is the field of section 7.21.6.1 of ISO C11 exactly when digits and sign fit 32 characters, a zero-padded width is at most 32, and '-' meets no precision above the digit count (or a dropped blank sign does not show) |
| PrintfField.IntegerReads | src/10.peripheral_timer/printf.c:199-326 | the field then has length max(width, sign + max(digits, precision)) and between its blanks stand the sign and digits that read back to the value |
| PrintfField.PointerDigitsIff | src/10.peripheral_timer/printf.c:822-838 | the exact flags, precision and value for which %p prints 16 upper-case hexadecimal digits, which then read back to the address |
| PrintfRender.DirectiveIsIsoIff | src/10.peripheral_timer/printf.c:683-756 | the same for the directives %d %i %u %x %X %o of every size, over the flags and the base that the switch selects |
| PrintfHash.MarkedIsIsoIff | src/10.peripheral_timer/printf.c:227-273 | for every 64-bit value, width, precision and flags with '#' in base 8 and 16, the text is the standard's field exactly when, without a precision, the width is not the digit count, and zeros up to it leave room for the prefix and end at 32; with a precision, '-' and base 16 meet none above the digit count, base 16 none above 30, and base 8 none above the digit count but one where the extra zero does no harm; a zero is as without '#', save in base 8 with precision 0 |
| PrintfHash.MarkedDirectiveIsIsoIff | src/10.peripheral_timer/printf.c:683-756 | the same for %#x, %#X and %#o of every size |
| PrintfHash.WidthTakesDigits | src/10.peripheral_timer/printf.c:242-261 | a concrete call whose text has lost both its digits |
| PrintfMeaning.IntegerDirective | src/10.peripheral_timer/printf.c:601-756 | a written d, i, u, x, X, o or b directive that the buffer has room for prints blanks, the sign (only for d and i), and digits of base 16 for x and X, 8 for o, 2 for b, 10 otherwise, upper-case exactly for X, that read back to the argument in the type its length letters name, in the standard's length; '-' or a negative star puts the blanks after it, '0' without '-' and precision makes them zeros |
| PrintfMeaning.PrefixedDirective | src/10.peripheral_timer/printf.c:242-261 | '#' on an x, X or o directive and a number that is not zero prints 0x, 0X or 0 before the digits, in the standard's length and with the blanks on the same sides, whenever the buffer has room for the prefix |
| PrintfMeaning.CharDirective | src/10.peripheral_timer/printf.c:776-794 | %c prints the low byte of its argument, with blanks before it up to the width, or after it with '-' |
| PrintfMeaning.StringDirective | src/10.peripheral_timer/printf.c:796-820 | %s prints the string, or its first characters up to the precision, with blanks on the same sides |
| PrintfMeaning.PointerDirective | src/10.peripheral_timer/printf.c:822-838 | %p without sign, '#' and '-' and with a precision of at most 16 prints 16 upper-case hexadecimal digits of the address |
| PrintfMeaning.OtherDirective | src/10.peripheral_timer/printf.c:840-848 | any other conversion character that is not a floating-point one, % among them, prints itself and takes no argument |
| PrintfMeaning.ArgumentsTaken | src/10.peripheral_timer/printf.c:627-656 | a directive takes one argument for each star and one for its conversion, save %% |
| PrintfRender.AtoiUndoesNumeral | src/10.peripheral_timer/printf.c:188-195 | _atoi reads the plain decimal text of any 32-bit unsigned value back to it and stops right after it |
| PrintfRender.DigitsRead10 | src/10.peripheral_timer/printf.c:188-195 | _atoi reads any digit string to its value modulo 2^32 |
| PrintfRender.ParseOfRender | src/10.peripheral_timer/printf.c:601-680 | flags in any order with repeats, then width, precision and length, are recovered exactly and consumed exactly |
| PrintfRender.ParseOfItems | src/10.peripheral_timer/printf.c:587-680 | a format made of any literals and directives parses to what those say, each star and conversion taking the next argument |
| PrintfRender.FormatPrints | src/10.peripheral_timer/printf.c:577-857 | and prints the literals and the converted arguments one after the other |
| TinyPrintf.Sink.Out | src/10.peripheral_timer/printf.c:133-166 | one more character of output: in the buffer if it is below the limit, to the function if it is not NUL, nowhere for the null sink |
| TinyPrintf.Sink.Terminate | src/10.peripheral_timer/printf.c:852-853 | the closing NUL goes after the output or into the last place, and nowhere for a count of 0 |
| TinyPrintf.StrnlenS | src/10.peripheral_timer/printf.c:171-176 | the length of the string or the limit, whichever is smaller |
| TinyPrintf.ReadNumber | src/10.peripheral_timer/printf.c:188-195 | _atoi computes the value modulo 2^32 and the position after the digits |
| TinyPrintf.OutReversed | src/10.peripheral_timer/printf.c:199-223 | the scratch characters in reverse, with blanks before or after them up to the width |
| TinyPrintf.NtoaFormat | src/10.peripheral_timer/printf.c:227-277 | the text of a field from its digits, with every index inside the 32-byte scratch buffer |
| TinyPrintf.PutDigits | src/10.peripheral_timer/printf.c:293-297 | the scratch buffer holds the lowest digits first, at most 32 of them |
| TinyPrintf.Ntoa | src/10.peripheral_timer/printf.c:281-326 | the text of an integer for every base from 2 to 16 |
| TinyPrintf.ReadDirective | src/10.peripheral_timer/printf.c:601-680 | the loops and branches compute the directive function that the rendering theorems speak about |
| TinyPrintf.ConvertInteger | src/10.peripheral_timer/printf.c:683-756 | base, case, sign and padding flags and the argument in the type the length names |
| TinyPrintf.ConvertChar | src/10.peripheral_timer/printf.c:776-794 | the character, with blanks on one side up to the width |
| TinyPrintf.ConvertString | src/10.peripheral_timer/printf.c:796-820 | the string, cut at the precision if there is one, with blanks on one side up to the width |
| TinyPrintf.ConvertPointer | src/10.peripheral_timer/printf.c:822-838 | the pointer prints as an upper-case, zero-padded hexadecimal field of width 16; without '-', '+', space and '#' and with a precision of at most 16 these are 16 digits that denote the address |
| TinyPrintf.Format | src/10.peripheral_timer/printf.c:587-850 | the loop ends on every format without a cut-off directive and outputs exactly its text, whatever the sink |
| TinyPrintf.Vsnprintf | src/10.peripheral_timer/printf.c:577-857 | the untruncated length is returned, as an int, and the sink is left as its kind demands |
| TinyPrintf.Snprintf | src/10.peripheral_timer/printf.c:883-903 | snprintf_ returns the untruncated length for every count and leaves in the buffer the first min(length, count - 1) characters, a NUL, and the rest as it was |
| TinyPrintf.Fctprintf | src/10.peripheral_timer/printf.c:906-914 | the output function receives the same characters minus NULs |
| TinyPrintf.TruncationIsPrefix | src/10.peripheral_timer/printf.c:133-138 | truncated output is a prefix of the untruncated output, NUL-terminated, and nothing from count on is written |
| TinyPrintf.DeliveredAll | src/10.peripheral_timer/printf.c:149-166 | output without NUL characters is delivered unchanged |
| TinyPrintf.NulDropped | src/10.peripheral_timer/printf.c:149-166 | a NUL in the output is dropped and the characters around it are delivered in order |
| SplPrint.PrintfInfo.DivOut | spl/common/printf.c:56-68 | repeated subtraction takes the highest digit off the number and prints it unless it is a leading zero |
| SplPrint.PrintfInfo.PutNumber | spl/common/printf.c:288-305 | dividing down from the top power prints exactly the numeral, within the 12-byte buffer |
| SplPrint.PrintfInfo.PrintNumber | spl/common/printf.c:265-334 | %u, %d and %x print the padding and the number, for every 32-bit value but the most negative |
| SplPrint.IntToStringDec | spl/common/console.c:40-75 | remainder and reversal give the decimal text and its NUL, in at most 12 bytes of the string and of the stack array |
| SplPrint.IntToStringHex | spl/common/console.c:78-92 | eight hexadecimal digits of the two's complement value and a NUL |
| SplPrint.DecimalsAgree | spl/common/console.c:40-75 | the tiny printf's decimal text is the one both other printers produce, at most 11 characters |
| SplPrint.HexAgree | spl/common/console.c:78-92 | int_to_string_hex prints what zero-padded %08x of the same 32 bits prints |
| SplPrint.PaddedDecimalIsIsoIff | spl/common/printf.c:324-334 | the SPL printf's padded decimal is the standard's field unless zeros, a negative number and room for padding meet |
| Gzip.ParseHeader | spl/common/gunzip.c:44-70 | the cursor loops compute the header end, or -1 for a bad method, a reserved flag, or too few bytes |
| Gzip.GzwriteSkip | spl/common/gunzip.c:141-164 | the copy in gzwrite computes the same offset against eight bytes less, and a positive payload size |
| Gzip.ParseOfRender | spl/common/gunzip.c:44-70 | for every combination of extra field, name, comment and header CRC the rendered header is read inside its bounds, and its length is returned exactly when a byte follows it |
| Gzip.RenderOfParse | spl/common/gunzip.c:44-70 | conversely the bytes before a header end are the rendering of a well-formed header, with any ID bytes |
| Gzip.AcceptedIsHeader | spl/common/gunzip.c:65-69 | so a non-negative result i means that the first i bytes are such a header |
| Gzip.HeaderOfRender | spl/common/gunzip.c:44-70 | every field of a header is recovered from its rendering |
| Gzip.GzwriteAgrees | spl/common/gunzip.c:141-164 | gzwrite skips to the offset gzip_parse_header returns, exactly when more than eight bytes follow it |
| Checksum.VerifyAddsum | spl/common/boot_utils.c:65-99 | the unrolled version returns 0 exactly when the stored sum is the plain sum of the words with the stamp in place, and leaves the image unchanged |
| Checksum.VerifyAddsumLanes | spl/common/boot_utils.c:22-62 | the four-lane version does the same, for any number of words |
| Checksum.StampedImagePasses | spl/common/boot_utils.c:75-98 | storing the sum computed with the stamp in place makes verification pass |
| Checksum.PassesIff | spl/common/boot_utils.c:75-98 | an image passes exactly when word 5 is the sum of the other words and 0x5F0A6C39, modulo 2^32 |
| Checksum.DetectsOneWord | spl/common/boot_utils.c:75-98 | in a passing image, changing one summed word or the stored sum makes it fail |
| Checksum.TwoWordsUndetectedIff | spl/common/boot_utils.c:80-98 | a change of two summed words passes exactly when it keeps their sum modulo 2^32 |
| I2cProtocol.StatusesDecide | spl/drivers/i2c.c:102-292 | for any list of steps, success means exactly the expected statuses, before a failure all but the last were as expected, the bytes sent are a prefix of those to be sent, and no stop is asked for |
| I2cProtocol.ReadResult | spl/drivers/i2c.c:294-348 | a read succeeds exactly when the statuses were 08, 18, 28 per register byte, 10, 40, 50 for all but the last data byte, and 58; it sends the write address, then one, two or three register bytes that denote the register address modulo 2^8, 2^16 or 2^24 most significant first, and the read address |
| I2cProtocol.LastByteInTime | spl/drivers/i2c.c:273-288 | after a successful read of several bytes the last status came within 99 reads of the last byte |
| I2cProtocol.WriteResult | spl/drivers/i2c.c:380-425 | a write succeeds exactly when they were 08, 18, and 28 for every register and data byte; it sends the write address, the same register bytes and the data |
| I2cProtocol.FailureCode | spl/drivers/i2c.c:102-292 | the code of a failed transfer: -4 for a flag or polled status that did not come, and otherwise the negative of the status the failing step wanted |
| I2cWrites.ReadAsksFor | spl/drivers/i2c.c:102-348 | a read's register writes in order: reset and start bit, address and register bytes each with the interrupt flag, repeated start, then flag and acknowledge bit per byte, the acknowledge bit cleared before the last of several; up to the step that fails |
| I2cWrites.WriteAsksFor | spl/drivers/i2c.c:102-425 | a write's register writes in order |
| I2c.Bus.AwaitFlag | spl/drivers/i2c.c:134-138 | polling succeeds exactly when the flag is seen within 65534 reads, and always ends |
| I2c.Bus.AwaitStatus | spl/drivers/i2c.c:266-270 | polling succeeds exactly when the wanted status is seen before the last read its counter allows, and records the status and its time or the timeout |
| I2c.Bus.GetLast | spl/drivers/i2c.c:273-288 | the last of several bytes is acknowledged exactly when its flag is seen within 65534 reads and status 58 within the 99 status reads after the byte |
| I2c.LateStatusTimesOut | spl/drivers/i2c.c:273-288 | a controller whose status turns from 50 to 58 at its two hundredth read fails that test, and would pass it with the counter set again |
| I2c.Bus.SendStart | spl/drivers/i2c.c:125-146 | the start step: its writes, then status 08 or the code of the failure |
| I2c.Bus.SendSlaveAddr | spl/drivers/i2c.c:149-180 | the address step, for writing (18) and reading (40) |
| I2c.Bus.SendByteAddr | spl/drivers/i2c.c:102-123 | a register address byte (28) |
| I2c.Bus.SendRestart | spl/drivers/i2c.c:182-203 | the repeated start (10) |
| I2c.Bus.GetData | spl/drivers/i2c.c:227-292 | the data bytes are attempted in order, the last of several with the shorter poll, and stored from the start of the buffer; nothing else in it changes |
| I2c.Bus.SendData | spl/drivers/i2c.c:350-378 | the data bytes are sent in order up to the first failure |
| I2c.Bus.Stop | spl/drivers/i2c.c:205-225 | the stop's writes, and the bounded wait for the ready status |
| I2c.Bus.Read | spl/drivers/i2c.c:294-348 | against any controller the call ends; on an initialised bus the protocol is attempted up to its first failure, then comes exactly one stop, last; the buffer holds the received bytes; every recorded status, byte and timeout is what the controller did, each timeout with the counter of its own poll |
| I2c.Bus.Write | spl/drivers/i2c.c:380-425 | the same for writes, with -1 for every failure |
| DmaPool.ReleaseKeeps | spl/drivers/sunxi_dma.c:190-203 | releasing a channel keeps the pool consistent: enabled interrupts are on used channels and counted exactly |
| DmaPool.EnableSetsBit | spl/drivers/sunxi_dma.c:311-338 | enabling a channel in use sets its interrupt bit and no other and counts it exactly when it was clear; a channel not in use is left alone |
| DmaPool.DisableClearsBit | spl/drivers/sunxi_dma.c:340-369 | disabling clears the bit and no other and takes it off the count exactly when it was set and the count positive |
| DmaPool.ReleaseClears | spl/drivers/sunxi_dma.c:190-203 | releasing a channel in use takes it, and its interrupt bit, out and leaves the others |
| DmaPool.ExitEmpties | spl/drivers/sunxi_dma.c:118-158 | after exit no channel is used, no interrupt is enabled and the count is 0 |
| DmaPool.InitConsistentIff | spl/drivers/sunxi_dma.c:67-116 | an init that takes effect leaves a consistent pool exactly when no interrupt of a channel from 8 on was enabled |
| DmaPool.ScansFailTogether | spl/drivers/sunxi_dma.c:160-188 | both scan directions fail only when all channels are used, and then both do |
| DmaPool.RunExclusiveIff | spl/drivers/sunxi_dma.c:67-369 | over every run of calls on any number of channels, at every point no two live handles share a channel and the count equals the number of enabled interrupts, all on used channels, if and only if no init that takes effect meets an enabled interrupt of a channel from 8 on |
| DmaPool.EightChannelsExclusive | spl/drivers/sunxi_dma.c:67-369 | on at most eight channels that holds throughout every run |
| DmaPool.BootExclusive | spl/drivers/sunxi_dma.c:67-116 | the first init makes a power-on state a valid start exactly when no interrupt from channel 8 on is enabled; on at most eight channels it always does |
| DmaPool.LeftoverBitMiscounts | spl/drivers/sunxi_dma.c:67-338 | with ten channels and one bit of irq_en1 left set before the first init, a run of three calls ends with a held channel whose interrupt is enabled and a count of 0 |
| DmaPool.TenChannelsMiscount | spl/drivers/sunxi_dma.c:31-35 | with ten channels a run of four calls ends with an enabled interrupt and a count of 0, if enable bits outlive the reset of the controller |
| DmaPool.DmaDriver.Init | spl/drivers/sunxi_dma.c:67-116 | the loop and the register writes give the initialised pool, or nothing when already initialised |
| DmaPool.DmaDriver.Exit | spl/drivers/sunxi_dma.c:118-158 | every used channel is released in turn |
| DmaPool.DmaDriver.Request | spl/drivers/sunxi_dma.c:175-188 | the lowest free channel is taken, or none |
| DmaPool.DmaDriver.RequestFromLast | spl/drivers/sunxi_dma.c:160-173 | the highest free channel is taken, or none |
| DmaPool.DmaDriver.Release | spl/drivers/sunxi_dma.c:190-203 | the channel is freed with its interrupt off, or -1 for a channel not in use |
| DmaPool.DmaDriver.EnableInt | spl/drivers/sunxi_dma.c:311-338 | the bit of a channel in use is set, in the register of the channel, and the count is one higher exactly when it was clear; -1 for a channel not in use |
| DmaPool.DmaDriver.DisableInt | spl/drivers/sunxi_dma.c:340-369 | the bit of a channel in use is cleared and uncounted once; -1 for a channel not in use |
| SpiClock.SpiController.ClkInit | spl/drivers/spi.c:512-570 | the clock register holds the shift and factor for the divider, or the request is refused and nothing changes |
| SpiClock.SpiController.SetClk | spl/drivers/spi.c:163-188 | the field written is the number of halvings that bring the clock down to the request |
| SpiClock.HalvingsLeast | spl/drivers/spi.c:177-181 | that number is the least that brings any clock down to any limit |
| SpiClock.SpiController.SpiInit | spl/drivers/spi.c:839-848 | the three functions chained, with the default for frequency 0: the registers left behind decode to the module clock of the request and put on the wire the frequency that WireClkBounds bounds; a refused request changes neither |
| SpiClock.FieldsReadBack | spl/drivers/spi.c:557 | the clock register has the gate bit 31 set, source 1 in bits 26 to 24, the shift in 9 and 8 and the factor in 3 to 0 |
| SpiClock.DecodeIsModuleClk | spl/drivers/spi.c:581-599 | the n and m fields fit and read back exactly |
| SpiClock.DividerIsCeiling | spl/drivers/spi.c:536-537 | the divider is the least that brings the source down to the request, for every 32-bit request |
| SpiClock.ShiftIsLeast | spl/drivers/spi.c:538-557 | the shift is the least that leaves a factor of at most 16, with the thresholds 16, 32 and 64, and the factor is the divider without it |
| SpiClock.RefusedIff | spl/drivers/spi.c:538-541 | exactly the requests below 4687500 Hz are refused |
| SpiClock.ModuleClkUpper | spl/drivers/spi.c:542-597 | the module clock is positive and below twice the request |
| SpiClock.ModuleClkLower | spl/drivers/spi.c:542-597 | up to the source frequency it is at least half the request rounded down |
| SpiClock.WireClkBounds | spl/drivers/spi.c:163-188 | for every request that is not refused at most one further halving is applied and the frequency is at most the request; it is at least half of it, rounded down, exactly up to 1200000001 Hz |
| Memory.Replicate | spl/common/memset_sunxi.c:33-36 | every byte of the replicated pattern is the fill byte, for 4- and 8-byte words |
| Memory.Memset | spl/common/memset_sunxi.c:8-59 | for every start, length and word size exactly the requested bytes become the fill byte |
| Memory.Memcpy | spl/common/memcpy_sunxi.c:18-55 | for disjoint ranges, and for any overlap with the destination at or below the source, exactly the destination becomes a copy of the source as it was |

## Left out

- BootHeap.BootHeap.Realloc: excludes the calls whose copy overruns the new block, as headers are not bytes here and what the overrun leaves is not modelled, and the end address with a request that does not round to 0, for which the code follows the tail's null pointer.
- HeapProofs.RunKeeps: runs in which a caller writes outside its own payload, or frees the end address, are excluded; after the latter the list has no end to be well formed against.
- BootHeap.BootHeap.StoreHeader: header fields live in node objects, and the 24 bytes they occupy in memory are written with arbitrary bytes, so the encoding of a header is not modelled.
- PinMux.PinController.BootSetGpio: requires pin numbers below 32, as the code shifts by them; register reads have no side effects.
- PinFields.FieldHoldsLastSetting: is about lists whose entries of ports 12 and up come first in one register, which HomeBankIff shows to be the ones configured in their own address block.
- PinBits.FunctionSelect: is about the same lists, as are PullSelect, DriveLevel and DataBit.
- PinBits.OthersKept: is about lists of ports 1 to 11; a list with later ports can write into the other address block, which HomeBankIff is about.
- PrintfField.IntegerIsIsoIff: leaves out '#', which PrintfHash.MarkedIsIsoIff is about, and base 2, for which FieldIsIsoIff says the same as long as the buffer holds the digits.
- PrintfMeaning.PrefixedDirective: leaves out '#' with %b, and requires the room without which MarkedDirectiveIsIsoIff says that the text is not the standard's.
- PrintfMeaning.IntegerDirective: requires room in the scratch buffer; DirectiveIsIsoIff says that the text is not the standard's without it.
- TinyPrintf.ReadDirective: a star width of the most negative int is negated with signed overflow in the code; the model gives the mathematical result 2147483648.
- TinyPrintf.ConvertInteger: the magnitude of the most negative value of a signed type is likewise the mathematical one.
- PrintfRender.DirectiveIsIsoIff: takes h and hh as the code narrows them, with plain char unsigned; a negative precision argument counts as 0, where the standard ignores it.
- TinyPrintf.Vsnprintf: leaves out formats with a floating-point directive, as do Format, Snprintf and Fctprintf.
- TinyPrintf.Format: takes a missing or mistyped argument as 0 or the empty string, where C leaves the result undefined; formats with a directive cut off by the terminator are excluded, as the code reads past the terminator there.
- TinyPrintf.ConvertString: takes NUL-terminated strings; with a precision the code still reads one character beyond the limit.
- TinyPrintf.Snprintf: sprintf_ is the same call without a limit and is not modelled; the output is assumed shorter than 2^64 characters.
- TinyPrintf.Ntoa: _ntoa_long and _ntoa_long_long are one method, as long has 64 bits.
- SplPrint.IntToStringDec: excludes the most negative value, whose negation overflows.
- SplPrint.PrintfInfo.PrintNumber: excludes the most negative value, whose negation overflows, and the 64-bit numerals, for which the 12-byte buffer is too small.
- Gzip.ParseHeader: requires that the scans stay inside the buffer, which the code does not check, and assumes buffers below 2 GiB.
- Checksum.VerifyAddsum: requires at least four words, since the first loop runs before it tests the count.
- I2c.Bus.Read: requires a length of at least 1, since the count wraps otherwise; the debug output is left out, and time is counted in register reads.
- I2c.Bus.Write: requires a non-negative length; the register bits of the older chips are left out.
- DmaPool.TenChannelsMiscount: assumes that an enable bit written after exit outlives the reset of the controller; LeftoverBitMiscounts does without.
- DmaPool.RunExclusiveIff: interrupt handlers, pending registers and data transfers are left out; exit also resets and gates the controller (sunxi_dma.c:151-153), and the enable bits are assumed to survive that and writes made in that state to take effect.
- SpiClock.SpiController.SetClk: the branch for a non-zero cdr is not modelled; no caller takes it.
- Memory.Memcpy: does not say what an upward copy onto an overlapping higher destination leaves.
- Floating-point conversions of the printf: IEEE arithmetic and bit punning are outside this model.
- Inflate, block-device writes, UART, RSB, RTC, watchdog, PLL bring-up, cache and interrupt-controller code: register sequences and external libraries.
- The copies of printf.c, the string searches and the per-example main programs: repeated or thin members.
