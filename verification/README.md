# A verified model of the RISC-V teaching kernel

This project models the parts of the kernel whose correctness is not visible from reading one function, and proves
what they are for. `dafny verify dfyconfig.toml` checks all of it.

* **Device tree scanner** (`FdtFormat`, `FdtVisit`, `FdtScanner`, `FdtTrace`, `FdtLayout`, `FdtCells`). `FdtFormat`
  has abstract trees and their layouts as words (Devicetree Specification, sections 5.4.1 and 5.4.2), with NOPs between
  any two tokens and arbitrary padding. `FdtScanner` is the recursive loop over an array of words, with a `ScanNode`
  object per level that serves all siblings, updated in place, and deletion by overwriting. `FdtVisit` says what a scan
  means on the abstract tree. The callbacks of `struct fdt_cb` are functions on a state that stands for `extra`; a null
  pointer is `None`. `MemoryQuery` and `HtifQuery` are the two clients.
* **Host mailbox** (`HtifWords`, `Mailbox`). Every access of the one hart to `tohost`, `fromhost`,
  `htif_console_buf` and `magic_mem` is a step of a state machine, and host steps may come between any two. The host
  is assumed to: take a nonzero `tohost` and clear it; run each system call taken once, on the argument block as it
  stands, put the result in its first word and queue one nonzero reply; answer each console read with the next typed
  byte; acknowledge a console write or not; deliver replies in the order queued, each only when `fromhost` is 0.
* **Backtrace and symbols** (`Symbols`, `Backtrace`, `Lines`). The frame-pointer walk over arbitrary memory (a function
  from addresses to doublewords), the first-match lookup, and the lines as they reach the host through the formatter.
* **Formatting and numbers** (`Numerals`, `Printf`, `PrintfMeaning`, `PrintfRefinement`,
  `PrintfLength`). The bounded formatter writes an array;
  `Full` is the unbounded formatter it should refine. Variadic arguments are a sequence of 64-bit values; a function
  gives the string at each pointer value.
* **ELF loading** (`ElfFile`, `ElfLoad`, `SymbolLoad`), **memory routines** (`MemOps`), **text** (`CText`).
* **Traps** (`Traps`, `TrapPath`, `NestedTrap`). The assembly is a set of programs of a small machine, with the C code
  between them. `NestedTrap` is about a machine trap that interrupts the supervisor's path.

## Where the code does not do what it is meant to

Each is kept as the code has it, and the condition under which the intent holds is proved.

* `vsnprintf` reads the argument of `%c` only if the character fits (util/snprintf.c:65), so behind a cut-off `%c` later
  conversions read the wrong arguments. What is stored is right all the same. For a format and a size, the returned
  length is right in all calls exactly when no call has a `%d` or `%s` behind a cut-off `%c` (`LengthExactlyWhen`), and
  that can be read off the format and the size (`FormatDecides`). `LengthCanBeWrong` is a call that goes wrong.
* The stack bounds checks of the unwinder compare a wrapped address: they keep every load inside the user stack exactly
  when sp is at least 7 (`StaysInsideIff`).
* Cell counts pass from one sibling to the next. The Devicetree Specification, section 2.3.5, is met exactly when the
  node sets the count or what its earlier siblings left is the default (`FdtCells.AgreesWithStandard`, and for whole
  trees `ForestAgreesWithStandard`); `SiblingInherits` has two siblings for which it is not.
* `elf_load` reads `memsz` bytes of the file instead of `filesz` bytes and zeros. For disjoint segments it loads the
  image of chapter 5 of the System V gABI exactly when, for every segment with `memsz` > `filesz`, the file reaches as
  far as `memsz` and holds zeros there (`ElfLoad.AgreesWithStandard`). Two files fail in the two ways:
  `FileEndsTooSoon` (the load answers EL_EIO) and `NoZeroFollows` (memory holds the bytes that follow in the file).
* Both trap paths lose t6 unless it already held the frame's address (`KeepsRegistersIff`, `MKeepsRegistersIff`,
  `LosesT6`).
* A machine trap inside the supervisor's trap path replaces t6, which that path uses as the frame's address: the rest of
  the saving or restoring macro then works on the other frame. It is harmless in all states exactly when it is taken
  outside the macro, or before its last instruction (`VectorWindow`, `ReturnWindow`; `BreaksInVector` and
  `BreaksInReturn` are a state that loses t5).
* `load_user_symbols` admits a symbol section of up to 12311 bytes for an array of 12288. It stays inside exactly when
  the section is no larger (`AdmittedSize`). Behind the array lie `sym_count` and the strings: those survive exactly when
  what spills over them is what they hold (`StringsSurviveIff`), and `SymbolsOverrun` is a file that loses a name.
* A backtrace line with a name of more than 254 characters reaches the host cut, with a NUL for its end (`LineArrives`).

## Model

| member | source | states |
|---|---|---|
| `Words.BswapReversesBytes` | spike_interface/dts_parse.c:11-15 | the mask-and-shift swap of a loaded word is the word loaded in the opposite byte order |
| `Words.BswapDigits` | spike_interface/dts_parse.c:11-15 | the swapped load has the four bytes as its digits, the first in memory most significant |
| `Words.BeDigits` | spike_interface/dts_parse.c:11-15 | so has the number that the model reads |
| `CText.CStrSpelled` | util/string.c:41-45 | the one text without a NUL that stands at a place and is followed by a NUL or the end |
| `FdtFormat.LayoutMeans` | spike_interface/dts_parse.c:35-51 | every property of a layout has the name spelled at its own offset in the strings block, its own length and value; every node the name spelled by its words |
| `FdtFormat.BlankIsPrune` | spike_interface/dts_parse.c:57-58 | overwriting deleted nodes with NOPs leaves a well-formed layout whose tree is the pruned tree, nested deletions included |
| `FdtFormat.BlankOnlyWritesNops` | spike_interface/dts_parse.c:57-58 | word by word, the structure block after deletion is the old one or NOPs, at the same length |
| `FdtLayout.EveryTreeHasLayout` | spike_interface/dts_parse.c:30-69 | every tree whose names and lengths the format can hold has a layout, over any strings block with its property names |
| `FdtLayout.BlobLaysOut` | spike_interface/dts_parse.h:9-20 | a header with literal magic bytes, a structure block and a strings block in the standard's order make a blob that lays out the given tree, and that a scan understands iff its version is at most 17 |
| `FdtLayout.EveryTreeHasBlob` | spike_interface/dts_parse.c:89-99 | every tree whose names and lengths the format can hold is the tree of some blob that a scan understands, within 32-bit offsets |
| `FdtLayout.Example` | spike_interface/dts_parse.h:22-26 | literal words, with the tokens as numbers, and the tree they lay out |
| `FdtScanner.ReadName` | util/string.c:41-45 | the name read byte by byte out of the words ends at the first NUL |
| `FdtScanner.WriteNops` | spike_interface/dts_parse.c:58 | the deletion loop fills exactly the given range with NOP tokens |
| `FdtScanner.NoteCells` | spike_interface/dts_parse.c:40-45 | a node's own record takes the cell counts, and nothing else, from its properties |
| `FdtScanner.ScanProp` | spike_interface/dts_parse.c:35-49 | a property is reported with the name spelled in the strings block at its offset, its length and its value, after its cell count is noted, and the cursor passes its padded value |
| `FdtScanner.CloseChild` | spike_interface/dts_parse.c:57-58 | a node is overwritten if and only if `close` rejects it |
| `FdtScanner.ScanSub` | spike_interface/dts_parse.c:50-61 | from BEGIN_NODE past END_NODE: open, the node's whole content, close; memory outside the node is unchanged |
| `FdtScanner.ScanHelper` | spike_interface/dts_parse.c:17-72 | for every layout the scan ends, never sees a property after a sub-node, returns the word past END_NODE (or the terminator), leaves the state of the abstract visit, and leaves in memory the blanked layout and nothing else changed |
| `FdtScanner.FdtScan` | spike_interface/dts_parse.c:89-99 | a blob with another magic or a newer version is untouched; any other is visited from its root, as the tree that its words and strings mean |
| `FdtTrace.ScanTrace` | spike_interface/dts_parse.c:29-71 | for every tree and every history-dependent deletion policy the events are open, properties in order, one done before any child opens, children in order, close |
| `FdtTrace.ScanTwice` | spike_interface/dts_parse.c:50-60 | deletion equals pruning: after a scan that deletes, a second scan reports exactly the events of the pruned tree, and between them the blob is the old one with the blanked structure block |
| `FdtTrace.DeletionByName` | spike_interface/dts_parse.c:57-58 | whatever else the callbacks do, rejecting by name removes exactly the nodes of those names with all below them |
| `FdtTrace.ReadOnlyScan` | spike_interface/dts_parse.c:52-57 | a client without `close` leaves every word of the blob as it was |
| `FdtCells.CountsCarryOver` | spike_interface/dts_parse.c:23-26 | when done fires, a node's cell counts are the last ones set among it and its earlier siblings, else 2 and 1 |
| `FdtCells.CallbacksTold` | spike_interface/dts_parse.c:35-69 | what every callback is told, with the whole node: open with the earlier siblings' counts, each property with the counts up to and including it, done and close with the node's final ones |
| `FdtCells.LastCountMeans` | spike_interface/dts_parse.c:40-45 | a count is the first word, as an int, of the last property of that name |
| `FdtCells.AgreesWithStandard` | spike_interface/dts_parse.c:24-26 | a count agrees with section 2.3.5 of the Devicetree Specification iff the node sets it or the earlier siblings left the default |
| `FdtCells.ForestAgreesWithStandard` | spike_interface/dts_parse.c:23-26 | all nodes of a forest are read as section 2.3.5 has them iff each sets its counts or its earlier siblings left the defaults |
| `FdtCells.SiblingInherits` | spike_interface/dts_parse.c:23-26 | two siblings of which the second is read with the first one's count instead of the default |
| `FdtCells.PropsSettle` | spike_interface/dts_parse.c:40-45 | after a node's properties its counts are the last ones set, for any callbacks |
| `FdtCells.GetCells` | spike_interface/dts_parse.c:74-87 | the result is the big-endian value of the cells modulo 2^64 and the pointer advances by exactly that many words, for any count |
| `FdtCells.ValueFromFront` | spike_interface/dts_parse.c:74-87 | the first cell is the most significant |
| `MemoryQuery.TextStopsAtNextToken` | spike_interface/spike_memory.c:26 | a string comparison that runs off a property's value stops at the next token, so it sees the value's text |
| `MemoryQuery.ReadsAs` | spike_interface/spike_memory.c:26 | a value reads as a text iff it begins with that text and a NUL, or ends with the text |
| `MemoryQuery.SaysMemoryIff` | spike_interface/spike_memory.c:26 | a property marks memory iff it is named device_type and its bytes begin with "memory" and a NUL |
| `MemoryQuery.LastCoverIs` | spike_interface/spike_memory.c:47-49 | the last entry with base <= self <= base + size, modulo 2^64, decides |
| `MemoryQuery.LastCoverNone` | spike_interface/spike_memory.c:47-49 | without such an entry nothing changes |
| `MemoryQuery.EntryAt` | spike_interface/spike_memory.c:45-46 | the i-th entry's base and size are its own cells, base first |
| `MemoryQuery.LastRegMeans` | spike_interface/spike_memory.c:28-31 | the last property named reg is taken |
| `MemoryQuery.SizedIff` | spike_interface/spike_memory.c:41-51 | well-sized, in the fields: whole words, a whole number of entries |
| `MemoryQuery.DecodeReg` | spike_interface/spike_memory.c:43-51 | the loop ends, meets `end` iff whole entries fill the value, and then leaves the size of the last covering entry |
| `MemoryQuery.DividesMeaning` | spike_interface/spike_memory.c:51 | the words divide into whole entries iff they are some multiple of the entry's cells |
| `MemoryQuery.MemDoneInPlace` | spike_interface/spike_memory.c:34-52 | on a value in memory, the checks and the loop have exactly the effect the query takes `done` to have; it fails iff a memory node's `reg` is missing or ill-sized |
| `MemoryQuery.RecordOfProps` | spike_interface/spike_memory.c:24-32 | after a node's properties the record says whether it is memory and holds its last `reg` |
| `MemoryQuery.RecordSuffices` | spike_interface/spike_memory.c:19-52 | one record is enough: the size found is that of the last pre-order entry covering the address, decoded with its parent's counts, and the query fails iff some memory node is ill-sized |
| `MemoryQuery.QueryMem` | spike_interface/spike_memory.c:55-66 | the same for the scan of a blob, which is left unchanged |
| `HtifQuery.SaysHtifIff` | spike_interface/spike_htif.c:32-37 | a property is compatible iff it is named so and its bytes begin with "ucb,htif0" and a NUL |
| `HtifQuery.CompatOfProps` | spike_interface/spike_htif.c:32-37 | the record is set iff some `compatible` property of the node begins with the string "ucb,htif0" |
| `HtifQuery.HtifFound` | spike_interface/spike_htif.c:27-44 | one record is enough: `htif` is set iff some node at any depth is compatible |
| `HtifQuery.QueryHtif` | spike_interface/spike_htif.c:47-58 | the same for the scan of a blob, which is left unchanged |
| `HtifWords.Unpacks` | spike_interface/spike_htif.h:8-19 | a packed command unpacks to its device, command and payload when each fits its field |
| `HtifWords.FieldBits` | spike_interface/spike_htif.h:8-19 | device, command and payload are the top byte, the next byte and the low 48 bits |
| `HtifWords.PayloadMustFit` | spike_interface/spike_htif.h:8-19 | the payload survives iff it is below 2^48 |
| `HtifWords.PacksBack` | spike_interface/spike_htif.h:8-19 | every word is the packing of its three fields |
| `Mailbox.StartsAnywhere` | spike_interface/spike_htif.c:61-73 | zeroed static storage is a start state, for any address of the argument block below 2^48 |
| `Mailbox.RunKeeps` | spike_interface/spike_htif.c:75-151 | every state of every interleaving satisfies the protocol invariant |
| `Mailbox.StepKeeps` | spike_interface/spike_htif.c:75-151 | every single access of the hart and every host step keeps the invariant |
| `Mailbox.KeepsSetWrite` | spike_interface/spike_htif.c:93-96 | posting a command keeps every balance: it is written only over 0 |
| `Mailbox.KeepsCheckUse` | spike_interface/spike_htif.c:80-91 | using a reply passes the assertions and keeps every balance |
| `Mailbox.KeepsGetMark` | spike_interface/spike_htif.c:143-147 | marking the buffer empty goes with exactly one new read request |
| `Mailbox.NeverFails` | spike_interface/spike_htif.c:80-90 | the assertions on replies fail in no reachable state |
| `Mailbox.NoCharacterLost` | spike_interface/spike_htif.c:135-151 | in every run the characters returned by getchar are a prefix of those typed, and those in between are in transit in order |
| `Mailbox.OneReadOutstanding` | spike_interface/spike_htif.c:141-148 | between operations the buffer is -1 iff one read request is outstanding, and otherwise none is |
| `Mailbox.OwnResults` | spike_interface/spike_utils.c:15-37 | between operations the system calls the host ran are those that returned, each on its caller's own eight words and with its own result, in call order, and no reply is left over |
| `Mailbox.CommandsConserved` | spike_interface/spike_htif.c:93-96 | the commands taken and the one pending are the commands posted, in order, decoded as posted |
| `Mailbox.CharactersWritten` | spike_interface/spike_htif.c:119-133 | the i-th console write taken is device 1, command 1, with the i-th character given to putchar as data; between operations none is missing |
| `Mailbox.CommandsWellPosted` | spike_interface/spike_htif.c:93-148 | every command posted is (1, 0, 0), a console write of one byte, or (0, 0) with the address of the argument block |
| `Mailbox.PutCharAlone` | spike_interface/spike_htif.c:119-133 | undisturbed on an idle mailbox, putchar leaves its packed character in `tohost` |
| `Mailbox.GetCharWithReply` | spike_interface/spike_htif.c:135-151 | with a reply waiting, getchar returns its character and asks for the next |
| `Mailbox.GetCharWithoutReply` | spike_interface/spike_htif.c:135-151 | with a read outstanding and no reply, getchar returns nothing and posts nothing |
| `Mailbox.SyscallAlone` | spike_interface/spike_utils.c:15-37 | a system call posts the block's address over its eight words, and once served returns the host's result |
| `Mailbox.OutputInOrder` | spike_interface/spike_htif.c:119-133 | the console writes taken are, in order, the first of the characters given to putchar |
| `Symbols.FindSymbol` | kernel/syscall.c:39-63 | the cursor loop computes the first-match lookup |
| `Symbols.LookupMeaning` | kernel/syscall.c:39-63 | the answer is the name of the first function symbol whose range and name offset are good, and there is none iff no symbol is |
| `Symbols.LookupInFields` | kernel/syscall.c:46-60 | in the fields: the answer is the name of the first symbol of type 2 and nonzero value with the address at a distance below its size (below 4 if it has none), its end inside the address space and its name in the table; else there is none |
| `Symbols.NameTextSpelled` | kernel/syscall.c:58 | the name is the text spelled at the symbol's offset in the string table |
| `Symbols.OrderDoesNotMatter` | kernel/syscall.c:45-61 | with disjoint ranges every permutation of the table gives the same answer |
| `Symbols.SeparateRangesDisjoint` | kernel/syscall.c:51-56 | ranges that neither wrap around nor overlap are disjoint in that sense |
| `Backtrace.SysUserBacktrace` | kernel/syscall.c:66-135 | the loop loads the addresses of the recursive walk, hands exactly its lines to the host, terminates, and returns their number |
| `Lines.PrintName` | kernel/syscall.c:113 | formatting with `%s\n` through the 256-byte buffer hands out the name's line, as far as it fits |
| `Lines.PrintAddress` | kernel/syscall.c:118 | formatting with `0x%lx\n` hands out the address's sixteen digits |
| `Lines.LineArrives` | spike_interface/spike_utils.c:47-52 | a line arrives whole iff it is an address or a name of at most 254 characters; else 255 characters and a NUL |
| `Backtrace.NameFoundInFields` | kernel/syscall.c:100-103 | the name for a return address is the text spelled at the offset of the first function around it |
| `Backtrace.Example` | kernel/syscall.c:66-135 | a stack in literal addresses, with its lines and loads: a helper left out, an address for an unnamed caller, nothing from main on |
| `Backtrace.ExampleRises` | kernel/syscall.c:93-131 | frames in literal addresses, up to the top of the user stack, as the layout theorem asks for them |
| `Backtrace.OnlyHelpersLeftOut` | kernel/syscall.c:108-115 | print_backtrace and do_user_call print no line; any other name does |
| `Backtrace.WalkEnds` | kernel/syscall.c:100-131 | a zero return address ends the walk without a line; a frame pointer that does not lead on ends it after the line |
| `Backtrace.StackTop` | kernel/config.h:15 | a frame pointer below 0x81100000 is followed, one at it is not |
| `Backtrace.UnwindInvertsLayout` | kernel/syscall.c:66-135 | over a leaf frame and callers laid out on the stack the backtrace prints the first d callers that are no helpers, nearest first, and stops before main |
| `Backtrace.WalkInvertsFrames` | kernel/syscall.c:93-132 | the same from any frame of the chain on |
| `Backtrace.UnwindTruncates` | kernel/syscall.c:93-134 | on arbitrary memory there are at most max_depth lines, and a smaller depth prints exactly the first lines of a larger one |
| `Backtrace.WalkStaysInside` | kernel/syscall.c:93-132 | with sp at least 7 every loaded byte lies strictly between sp and the top of the user stack |
| `Backtrace.StaysInsideIff` | kernel/syscall.c:73-131 | all loads stay inside for all memories and frame pointers iff sp is at least 7 |
| `Numerals.DecNatValue` | util/string.c:76-79 | accumulating the decimal digits of a number gives the number, without exceeding it on the way |
| `Numerals.Atol` | util/string.c:65-82 | spaces, sign and the characters up to the NUL are read as specified, without overflow |
| `Numerals.AtolInvertsDec` | util/string.c:65-82 | reading a printed number gives it back, for every number above LONG_MIN |
| `Numerals.AtolSkipsSpaces` | util/string.c:69-70 | leading spaces do not count |
| `Numerals.AtolReadsPlus` | util/string.c:71-74 | a plus sign is passed over |
| `Numerals.HexDigitAt` | util/snprintf.c:28-29 | the digit at shift i of the two's complement text is the low digit of the arithmetic shift |
| `Numerals.HexWidths` | util/snprintf.c:26-35 | `%lx` and `%x` print exactly 16 and 8 digits that read back modulo 2^64 and 2^32 |
| `Printf.PutHex` | util/snprintf.c:28-31 | the digit loop writes the hexadecimal text, bounded by the buffer |
| `Printf.CountDigits` | util/snprintf.c:42-44 | the counting loop gives the length of the decimal text |
| `Printf.PutDigits` | util/snprintf.c:45-48 | the back-to-front loop writes the decimal text, bounded by the buffer |
| `Printf.PutDec` | util/snprintf.c:36-53 | sign and digits together write the signed decimal text |
| `Printf.PutText` | util/snprintf.c:54-63 | a string argument is copied, bounded by the buffer |
| `Printf.Vsnprintf` | util/snprintf.c:11-83 | the buffer holds what is emitted, cut to fit and terminated, all else in it is unchanged, and the result is the emitted length |
| `PrintfMeaning.PlainText` | util/snprintf.c:74-77 | text without a percent sign is printed as it is, in front of whatever follows |
| `PrintfMeaning.PrintPlain` | util/snprintf.c:16-83 | a format without a percent sign is stored as itself, as far as it fits, and its length is returned |
| `PrintfMeaning.DirectivePrints` | util/snprintf.c:17-73 | a percent sign, any characters that convert nothing, and one of p, x, d, s, c print the next argument, as a long iff an l came between |
| `PrintfMeaning.ConvertedMeans` | util/snprintf.c:22-69 | what each conversion prints: 0x and 16 hexadecimal digits, 16 or 8 digits, decimal text that reads back, the string at the pointer, the low byte |
| `PrintfMeaning.DigitLetters` | util/snprintf.c:30 | the digits are 0 to 9 and a to f |
| `PrintfRefinement.FittingIsRight` | util/snprintf.c:16-77 | what fits, and whether everything fits, is as in the full output, for every format and argument list |
| `PrintfRefinement.StoresFullOutput` | util/snprintf.c:11-83 | the buffer ends up exactly as if the full output had been cut to fit and terminated |
| `PrintfRefinement.StoredText` | util/snprintf.c:78-81 | that is: the first min(length, n-1) characters, a NUL, and the old contents |
| `PrintfRefinement.LengthIsRight` | util/snprintf.c:64-69 | the result is the full length whenever no `%d` or `%s` follows a cut-off `%c` |
| `PrintfRefinement.LengthCanBeWrong` | util/snprintf.c:64-69 | a format and arguments for which the result is wrong |
| `PrintfLength.LengthExactlyWhen` | util/snprintf.c:64-69 | for every format and size, the result is the full length in all calls iff in no call a `%d` or `%s` follows a cut-off `%c` |
| `PrintfLength.FormatDecides` | util/snprintf.c:11-83 | whether all calls with a format and a size return the full length is decided by these two: by the widest each conversion can print |
| `PrintfLength.CutExactlyWhen` | util/snprintf.c:64-69 | from within a format: behind a cut-off `%c` the result is the full length for all arguments iff neither `%d` nor `%s` follows |
| `PrintfLength.Misread` | util/snprintf.c:64-69 | any arguments that lead to such a cut can be replaced by others that agree up to it, with the same strings, reach the same cut after the same number of arguments, and make the result wrong |
| `PrintfRefinement.Vprintk` | spike_interface/spike_utils.c:47-52 | the bytes handed out are the full output if shorter than 256, else 255 characters and the NUL |
| `PrintfRefinement.PrintedNumberReadsBack` | util/snprintf.c:36-53 | formatting with `%ld` and reading with atol is the identity above LONG_MIN |
| `PrintfRefinement.PrintThenRead` | util/snprintf.c:36-53 | the same through a buffer large enough: what vsnprintf stores there, atol reads as the number |
| `MemOps.Memmove` | util/string.c:84-98 | for every overlap the destination gets the old source and nothing else changes |
| `MemOps.Memcpy` | util/string.c:8-23 | on disjoint ranges the word and byte paths copy byte for byte and nothing else changes |
| `MemOps.Memset` | util/string.c:25-39 | the word and byte paths fill the range with the low byte and nothing else changes |
| `MemOps.FilledAt` | util/string.c:25-39 | inside the range every byte is the fill byte, outside it the old one |
| `MemOps.ReplicateBytes` | util/string.c:27-30 | every byte of the replicated word is the fill byte |
| `CText.Strlen` | util/string.c:41-45 | the length of the text before the first NUL |
| `CText.Strcmp` | util/string.c:47-56 | zero iff the texts are equal, else the difference at the first place they differ |
| `ElfLoad.ElfInit` | kernel/elf.c:56-66 | success iff a whole header with the ELF magic can be read |
| `ElfLoad.ElfLoadInto` | kernel/elf.c:71-94 | the loop over headers, whose offset passes through an `int`, leaves the status and memory of the recursive load |
| `ElfLoad.NarrowedIff` | kernel/elf.c:77 | the header offset survives the `int` iff it is below 2^31 or within 2^31 of 2^64 |
| `ElfLoad.LoadIsOverlay` | kernel/elf.c:71-94 | loading succeeds iff every header is acceptable, and then memory is the old one overlaid in header order with memsz file bytes per PT_LOAD segment |
| `ElfLoad.LoadsIff` | kernel/elf.c:77-91 | in the fields: EL_OK iff every header can be read and each of type 1 has filesz <= memsz, its end inside the address space, and memsz bytes in the file |
| `ElfLoad.FirstBadDecides` | kernel/elf.c:79-90 | otherwise the first such header gives the status: EL_ERR for contradictory sizes, EL_EIO for a short file |
| `ElfLoad.LoadedByte` | kernel/elf.c:88-90 | at each address of a segment with no later one around it, memory holds the file's byte at the same distance |
| `ElfLoad.NotLoadedByte` | kernel/elf.c:77-91 | where no segment lies, memory is as it was |
| `ElfLoad.LastSegmentDecides` | kernel/elf.c:88-90 | at each address the last segment covering it decides, else memory is unchanged |
| `ElfLoad.DisjointSegmentsHold` | kernel/elf.c:77-91 | disjoint segments each hold exactly their file bytes and all else is unchanged |
| `ElfLoad.ApartIsDisjoint` | kernel/elf.c:77-91 | segments of which one ends before the other begins are disjoint |
| `ElfLoad.AgreesWithStandard` | kernel/elf.c:71-94 | for disjoint segments whose filesz bytes are in the file, the load succeeds with the gABI image iff behind each segment with memsz > filesz the file goes on to memsz with zeros; so always when memsz equals filesz |
| `ElfLoad.EqualSizesLoad` | kernel/elf.c:82-90 | an executable with memsz equal to filesz that loads |
| `ElfLoad.FileEndsTooSoon` | kernel/elf.c:89-90 | an executable with a gABI image that fails to load, because the file ends before memsz |
| `ElfLoad.NoZeroFollows` | kernel/elf.c:89-90 | an executable that loads with a byte other than the gABI's zero |
| `ElfLoad.WrapsIff` | kernel/elf.c:83 | the overflow test rejects exactly the segments that leave the address space |
| `SymbolLoad.GetSectionHeader` | kernel/elf.c:101-104 | the header at an `int` index, negative or not, is read from its offset modulo 2^64, or the read falls short |
| `SymbolLoad.Process.LoadUserSymbols` | kernel/elf.c:107-162 | it succeeds iff there is no symbol table or the first one and its string table are loadable; then the process holds its symbols, within 512, and its strings, within 8192, under what the symbols spill |
| `SymbolLoad.SymbolAt` | kernel/process.h:20-27 | the fields of the i-th symbol are its bytes 0 to 3, 4, 8 to 15 and 16 to 23 |
| `SymbolLoad.LoadableIff` | kernel/elf.c:141-159 | in the fields: at most 8192 bytes of strings, entries of 24 bytes, fewer than 513 of them, all in the file |
| `SymbolLoad.SectionInPlace` | kernel/elf.c:101-104 | the header of a section is the 64 bytes at its place in the table |
| `SymbolLoad.AdmittedSize` | kernel/elf.c:149-158 | an admitted section has fewer than 513 entries' bytes, and is inside the array iff it has at most 512 |
| `SymbolLoad.StringsSurviveIff` | kernel/process.h:35-37 | the strings survive the spill iff it agrees with them; so always up to 12296 bytes |
| `SymbolLoad.SymbolsOverrun` | kernel/elf.c:149-158 | a file that is admitted, overruns the array, and loses a name |
| `SymbolLoad.StandardLinks` | kernel/elf.c:137 | with standard header sizes and a link to an existing section no index overflows and the link is followed as meant |
| `SymbolLoad.LinkWraps` | kernel/elf.c:101 | a link of 2^31 or more becomes a negative index |
| `SymbolLoad.LoadThenFind` | kernel/elf.c:107-162 | loading then looking up gives the name offset that the file defines, and its text unless symbols spill over the strings |
| `SymbolLoad.SameName` | kernel/syscall.c:57-58 | a name that ends inside the string table is the same whatever follows the table |
| `Traps.MacroPattern` | util/load_store.S:4-73 | both macros go through the 31 registers in order, each at eight times its number less one |
| `Traps.StoreAllDoes` | util/load_store.S:4-37 | storing fills the frame at t6 with all registers and changes nothing else |
| `Traps.RestoreAllDoes` | util/load_store.S:41-73 | restoring takes every register from the frame at t6, t6 itself last |
| `Traps.RestoreInvertsStore` | util/load_store.S:4-73 | storing, clobbering and restoring gives every register back |
| `TrapPath.VectorSaves` | kernel/strap_vector.S:18-41 | the vector saves the user's registers (t6 excepted), keeps the rest of memory, and jumps to the handler on the kernel stack |
| `TrapPath.ArgumentRegisters` | kernel/strap.c:25-26 | the arguments are x10 to x17, in the frame from offset 72 on |
| `TrapPath.ReturnRestores` | kernel/strap_vector.S:50-63 | the return loads every register from the trapframe and resumes at sepc |
| `TrapPath.HandlerFrame` | kernel/strap.c:15-80 | the handler moves the saved program counter past an ecall only, stores the result of the user's own arguments in a0's slot, and counts and clears a timer trap |
| `TrapPath.SwitchToFrame` | kernel/process.c:39-52 | switching sets the kernel stack and handler in the trapframe, and sepc to its epc, and keeps the register slots |
| `TrapPath.SmodeRoundTrip` | kernel/strap_vector.S:17-63 | a trap and its return keep all registers but t6 and, after an ecall, a0; the program counter advances by 4 or not at all; user mode with interrupts enabled and the user-mode invariant hold again; any other cause panics |
| `TrapPath.KeepsRegistersIff` | kernel/strap_vector.S:17-63 | the path keeps the user's registers iff t6 already held the trapframe's address |
| `TrapPath.MRoundTrip` | kernel/machine/mtrap_vector.S:8-41 | a machine timer trap keeps all registers but t6, the program counter and the user-mode invariant |
| `TrapPath.MKeepsRegistersIff` | kernel/machine/mtrap_vector.S:8-41 | the machine path keeps all registers iff t6 already held the interrupt frame's address |
| `TrapPath.LosesT6` | kernel/strap_vector.S:17-63 | a user state whose t6 either kind of trap replaces by a frame's address |
| `TrapPath.FirstSwitch` | kernel/process.c:28-56 | the first switch establishes the user-mode invariant and starts the program at its epc with the trapframe's registers |
| `TrapPath.FinishDoes` | kernel/strap.c:39-81 | what follows the vector, from whatever the vector left in the trapframe |
| `TrapPath.MTrapDoes` | kernel/machine/mtrap_vector.S:8-41 | a machine trap taken anywhere saves the registers in its frame, brings back all but t6, and keeps the trapframe |
| `NestedTrap.VectorSkips` | kernel/strap_vector.S:18-41 | a machine trap before any instruction of the vector has the effect of leaving out the rest of the saving macro once that has begun, and otherwise none |
| `NestedTrap.ReturnSkips` | kernel/strap_vector.S:50-63 | the same for the restoring macro of the return |
| `NestedTrap.VectorInterrupted` | kernel/strap_vector.S:18-41 | such a trap comes back right iff the slots left out already held the registers |
| `NestedTrap.ReturnInterrupted` | kernel/strap_vector.S:50-63 | such a trap comes back right iff the kernel's registers left alone already held what is due |
| `NestedTrap.VectorWindow` | kernel/strap_vector.S:23-27 | it is harmless in all states iff taken outside instructions 2 to 31 of the vector, counted from 0 |
| `NestedTrap.ReturnWindow` | kernel/strap_vector.S:55-60 | it is harmless in all states iff taken outside instructions 2 to 31 of the return, counted from 0 |
| `NestedTrap.BreaksInVector` | util/load_store.S:4-37 | a state that loses t5 at every place in the window |
| `NestedTrap.BreaksInReturn` | util/load_store.S:41-73 | the same for the return |
| `TrapPath.UserDoes` | kernel/strap.c:39-81 | in a run user code may leave anything in the registers and outside the frames |
| `TrapPath.TrapsDo` | kernel/strap.c:39-81 | in a run both kinds of trap may come at any user-mode state, and what each does to the registers |
| `TrapPath.RunKeeps` | kernel/strap.c:39-81 | in every user-mode state of every run the hart is in user mode with supervisor interrupts enabled, sscratch, kernel_sp and kernel_trap hold the trapframe, the kernel stack and the handler, and the tick count is the number of timer traps, whatever each system call returns |

## Left out

- Malformed device trees: a property behind a sub-node, a name outside the strings block, a cell count without a value, or a length above 2^31 - 4 (its round-up overflows an int).
- The strings block is read once, when a scan starts; in a blob whose blocks do not overlap a scan never writes it.
- FdtTrace.ScanTwice: asks for the block order of section 5.1 of the Devicetree Specification (header, structure, strings) and for a single root level without properties.
- MemoryQuery.QueryMem: its `done` callback is the function that MemDoneInPlace computes in memory; what the loop reads past the end of an ill-sized value is not looked at; the size left by a query that fails an assertion, follows a null parent or cannot end is not the C program's, which does not get that far.
- Strings compared by the scanner and the unwinder are compared as texts; `CText.Strcmp` is the proof that strcmp does that. The text of a symbol name ends at the end of the string array at the latest.
- Mailbox: values instead of a class, because a protocol is a state machine over single accesses; the two spinlocks, a second hart, power-off, and any progress by the host are not modelled.
- Backtrace.SysUserBacktrace: a string table of 2^31 characters or more; loads are of doublewords at an address, so overlapping unaligned loads are not related to each other.
- Printf.Vsnprintf: missing arguments and `%ld` of LONG_MIN are undefined in C and excluded; the position is not bounded by 2^64.
- MemOps.Memcpy: the word loop's bound `dest + len - 7` is taken without wrap-around below address 0.
- ElfLoad.ElfLoadInto: a header offset that overflows its int on the way (undefined in C) and files of 2^63 bytes or more; a read is short only at the end of the file; writes into the loader's own memory.
- SymbolLoad.Process.LoadUserSymbols: a section index times the entry size that does not fit an int (undefined in C); the bytes of a last partial symbol entry, which no lookup reads. What an overrun writes is taken from the layout of `struct process_t`.
- Traps and TrapPath: registers and memory are values that an interpreter passes along, and the C code between the assembly parts may leave anything in the other registers and outside the two frames. User code does not write the frames, in a run a machine trap does not interrupt the S-mode path (`NestedTrap` says what one such trap does), and a system call that does not return is not part of a run.
- Boot and CSR set-up (kernel/machine/minit.c), the exception cases of kernel/machine/mtrap.c (they panic), the host file table (spike_interface/spike_file.c), command-line parsing and the user library.
