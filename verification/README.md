# GoRetroTV: a verified model

GoRetroTV runs a satellite set-top box's firmware on an emulated MIPS processor and feeds it a synthetic
broadcast. This project states in Dafny what the difficult parts of the two do and proves what they promise:

- **The processor.** `OracleDecode` and `OracleExec` are the JavaScript oracle: its decoder and its executor.
  `Core` is the Go core, a class that executes MIPS16 and MIPS32 instructions in place; `Mips32` and `Stepping`
  are the functions it is proved to compute. The Go core is a port of the oracle, so the central result is that
  the two agree, one instruction at a time and over runs (`Core.Core.Execute16`, `Stepping.MatchesOracle`,
  `Stepping.Lockstep`). Around it: 64-bit products from 16-bit limbs (`Multiply`), sign extension at every width
  (`SignExtension`), SAVE and RESTORE (`Frames`), the two-level decode cache (`FrontCache`), unaligned
  loads and stores (`Unaligned`), interrupts and snapshots (`Stepping`).
- **What the instructions mean**, written on assembled words and not through the functions that compute it: conditions,
  values, bits and bytes of MIPS32 (`Mips32Meaning`, `Mips32Access`) and MIPS16 (`Mips16Meaning`), jumps, slots and the flow of
  a step (`ControlFlow`), interrupts bit by bit (`Interrupts`), and the layout of a frame (`FrameLayout`).
- **The broadcast.** `Huffman` (dictionary, encoder, padding, trie decoder), `HuffmanClash` (what becomes of the
  round trip when codes clash), `Titles` (title sections and the trial build that fills a day), `Packing`, `Sections`, `Descriptors`, `Bouquet` and `Bat` (numbered sections,
  greedy packing, descriptor loops cut at boundaries with a namespace declared again), `Crc`, `Transport`
  (transport packets and continuity counters), `Carousel` (the settle-gated schedule), `Repetition` (when each rung is asked)
  and `OnAir` (what a failing source does to the order on the air). `CrcRemainder` says what the checksum is: a remainder of
  polynomials over the field of two elements.
- **Memory and snapshots.** `Decoder` (the bus's address map, cached lookup and unmapped census), `Ram` (big-endian
  accesses and the dirty-page set), `Flash` (the AMD command sequence), `BusSnapshot` and `MachineSnapshot`
  (restores that install everything, change nothing, or say that nothing is known).
- `Words`, `WordBits` and `Memory` hold the machine integers, their bits and the flat memory, `Emissions` a section on its way out; `Agreement` relates the two readings of
  a 32-bit word.

Code that changes state is a class or a method with the source's loops and branches, proved to compute a function;
the properties are proved of the function. `Bytes` that the source passes as Go strings are byte sequences.
The imperative form of a component and the functions it computes are in one file, except that the core's functions
are in `Mips32` and `Stepping`.

Some properties one might expect hold only under a condition. Each is given with the input that breaks it and with
the condition under which it holds:

- `Core.Restore` accepts a state that running reaches exactly when its MIPS32 addresses are word-aligned
  (`Stepping.RestoreAcceptsReachable`; `Stepping.RefusedAfterJump` is one that is not). So a machine comes back from its own
  snapshot exactly when its core is word-aligned, and one that is not is lost by any restore that fails
  (`MachineSnapshot.MachineRoundTrip`, `MachineSnapshot.OwnSnapshotLosesTheMachine`).
- Loading a Huffman dictionary does not check that no code begins another. Where no value begins another, every text
  comes back exactly when the codes are prefix-free (`HuffmanClash.AllComeBackIff`); in any dictionary a value is lost if the
  shortest code that begins its own belongs only to values that do not begin it (`HuffmanClash.ClashLosesValue`), and
  the empty text comes back exactly when no code is a proper beginning of the terminator (`HuffmanClash.EmptyTextIff`).
  The lines "a=0", "b=01" and "=11" load to a dictionary that loses "b" (`HuffmanClash.LoadedClashLosesText`); a = 0, aa = 00
  with terminator 1 loses nothing (`HuffmanClash.ClashWithoutLoss`).
- `NextDue` does not consider the events source. Pumping is polling, over any run, exactly when events were due at no
  instant the polled run could have skipped (`Carousel.PumpingIsPollingIff`; `Carousel.EventsWait` is a run that differs).
- A source that fails drops what its wave had already gathered, but the carousel remembers having been answered. The rungs
  still go on the air in order, whatever the sources, exactly when there is a settle after the clock and after the
  line-up and, if there is an index, a settle after the titles and neither events nor programmes
  (`OnAir.OrderSurvivesIff`). Everything answered goes out exactly when no wave that failed had been answered anything first
  (`OnAir.NothingDroppedIff`). The shipped loop halts on the first error (`cmd/goretrotv/main.go:496-498`), so the run up to
  a failure is the live case, and that one is in order for every schedule (`OnAir.LiveIsOrdered`).
- `IndexSection` builds what `numberedSection` would for the same numbers exactly when the number is not past the last, or
  the version is refused anyway (`Sections.IndexIsNumberedIff`).
- A settle is a delay exactly while it does not run past the end of the 64-bit instruction counter
  (`Carousel.SettleIsADelay`).
- Flash `Restore` also accepts command bytes no run produces; `Flash.ReachableBytes` says exactly which ones runs do produce.
- The flash command F0 puts the sequence to rest exactly when no erase is set up and it is not the data of a program in
  identification mode (`Flash.WhenF0Resets`); with an erase set up it is refused (`Flash.ResetDoesNotCancelErase`).

Where the code and its comments differ, the model follows the code: the flash's and RAM's `off+i` are modelled with
their 32-bit wrap, although a comment rules it out.

## Model

| member | source | states |
|---|---|---|
| SignExtension.SignExtensionsAgree | internal/cpu/mips16.go:11 | shifting a field to the top and back arithmetically is the oracle's mask-and-subtract, at every width |
| Multiply.LimbsExact | reference/mips16.js:857-879 | every intermediate of the limb product is below 2^33, so exact in a double |
| Multiply.LimbProduct | reference/mips16.js:857-879 | the limbs reassemble to the product of the magnitudes |
| Multiply.Mul64Exact | reference/mips16.js:857-879 | mul64 is the exact signed or unsigned 64-bit product in two words, the same as Go's native product |
| Multiply.TruncQuotient | reference/mips16.js:881 | truncating the exact real quotient is Go's integer division |
| Multiply.TruncRounded | reference/mips16.js:881 | truncating what rounded division may answer, anything within a relative 2^-53 and exact at integers, is Go's integer division for 32-bit operands |
| OracleDecode.DecodedLength | reference/mips16.js:307-781 | JAL and JALX are two halfwords, everything else one, plus any prefix |
| OracleDecode.WindowDecides | reference/mips16.js:307-781 | what decodes is two or four bytes long and is decided by two halfwords, which is why eviction by address range is enough |
| Frames.ExecSave | reference/mips16.js:1385-1413 | the executed SAVE stores the listed registers in order, each at its own descending slot, and moves the stack pointer |
| Frames.ExecRestore | reference/mips16.js:1415-1440 | the executed RESTORE reads them back from the same slots and moves the stack pointer back |
| Frames.RestoreUndoesSave | reference/mips16.js:208-270 | for every frame and stack pointer, wrap-around included: SAVE, then anything that leaves SP and the frame alone, then RESTORE gives back SP and every saved register and touches no other |
| FrameLayout.SaveLaysOut | reference/mips16.js:1385-1413 | by the written tables: the argument registers aregs stores, from the old stack pointer up; below it ra, s8, s7 to s2 by xsregs, s1, s0 and the statics from a3 down, each in its own word; every other byte and every register but the stack pointer as before |
| FrameLayout.RestoreReadsBack | reference/mips16.js:1415-1440 | each register the frame holds gets the word of its place, the stack pointer moves up by the frame's size, and no other register changes |
| FrameLayout.FramesDecode | reference/mips16.js:208-270 | the assembled halfwords decode to their frames: size 0 is 128 bytes, an extended size is eight bits, aregs 15 is reserved |
| FrontCache.ShrunkToSameSize | reference/mips16.js:964-984 | a map that has only shrunk and has kept its size is the same map |
| FrontCache.EvictionKeepsCoherence | reference/mips16.js:1027-1036 | evicting every address whose code was rewritten, and any others, keeps the cache true to memory |
| FrontCache.Front.Watch | reference/mips16.js:1043-1049 | a changed size drops the whole index by a new generation, wrap included; an unchanged one keeps it, and either way what is live is in the map |
| FrontCache.Executor.Lookup | reference/mips16.js:1037-1063 | index, Map or decoder: whichever answers, the answer is what decoding would give |
| FrontCache.Executor.Step | reference/mips16.js:1010-1090 | a step with both caches leaves the outcome and the machine of a step with none, delay slots included |
| FrontCache.Executor.Run | reference/mips16.js:985-1090 | over every run in which the caller only evicts, starts a new Map, drops it or puts an earlier one back, outcomes and machine are those with no cache |
| FrontCache.Executor.PutBack | reference/mips16.js:1037-1049 | a Map set aside and put back, what went stale evicted, leaves Map and index true to memory whichever Map the index belongs to |
| Core.Core.MultiplyWords | internal/cpu/mips16.go:373-379 | HI and LO receive the product the oracle computes from its limbs |
| Core.Core.DivideWords | internal/cpu/mips16.go:380-390 | the quotient and the remainder are the oracle's; a zero divisor leaves HI and LO alone |
| Core.Core.Execute16 | internal/cpu/mips16.go:15-398 | for every PC, halfwords and state: the same refusal as the oracle's decoder and executor, or the same registers, HI, LO, memory, length and transfer of control; SAVE/RESTORE and zero divisors as the core has them |
| Core.Core.Execute32 | internal/cpu/mips32.go:15-221 | the bit-sliced MIPS32 switch computes the instruction function, every refusal included |
| Mips32Meaning.CompareBranches | internal/cpu/mips32.go:117-154 | BEQ, BNE, BLEZ and BGTZ and their likely forms: taken exactly on their condition, to the offset from the slot; not taken, a likely one passes its slot over |
| Mips32Meaning.SignBranches | internal/cpu/mips32.go:93-111 | BLTZ and BGEZ, likely, linking and both, the register read before the link is written |
| Mips32Meaning.OppositeBranches | internal/cpu/mips32.go:93-154 | of two opposite branches on the same registers exactly one is taken, and either goes to the same place |
| Mips32Meaning.Jumps | internal/cpu/mips32.go:112-116 | J, JAL and JALX go to the index in the slot's 256 MB region, and link |
| Mips32Meaning.JumpsToRegister | internal/cpu/mips32.go:45-46 | JR: bit 0 of the register is the instruction set, not part of the address |
| Mips32Meaning.JumpsAndLinks | internal/cpu/mips32.go:47-49 | JALR reads its register after the link is written |
| Mips32Meaning.Arithmetic | internal/cpu/mips32.go:74-89 | sums, differences and comparisons of two registers, in their values |
| Mips32Meaning.Shifts | internal/cpu/mips32.go:33-44 | the six shifts as products and quotients by a power of two |
| Mips32Meaning.BitOperations | internal/cpu/mips32.go:78-85 | AND, OR, XOR and NOR, bit by bit |
| Mips32Meaning.ImmediateSums | internal/cpu/mips32.go:125-138 | ADDI, ADDIU, SLTI, SLTIU and LUI on a signed immediate |
| Mips32Meaning.ImmediateBits | internal/cpu/mips32.go:131-136 | ANDI, ORI and XORI on an unsigned immediate, bit by bit |
| Mips32Meaning.PairMoves | internal/cpu/mips32.go:51-58 | the moves to and from HI and LO |
| Mips32Meaning.Products | internal/cpu/mips32.go:59-64 | HI and LO together hold the product of the signed, or of the unsigned, readings modulo 2^64 |
| Mips32Meaning.Quotients | internal/cpu/mips32.go:65-74 | the quotient rounded toward zero and the remainder with the dividend's sign; a zero divisor changes nothing |
| Mips32Access.Loads | internal/cpu/mips32.go:180-192 | LB, LBU, LH, LHU and LW from the bytes at the address, the most significant first |
| Mips32Access.StoresBytes | internal/cpu/mips32.go:193-201 | SB, SH and SW change exactly their bytes and end a reservation |
| Mips32Access.Reservations | internal/cpu/mips32.go:202-212 | LL remembers its address; SC stores only there, says whether it did, and forgets |
| Mips32Access.PartLoads | internal/cpu/mips32.go:247-262 | LWL and LWR each, byte by byte of the register |
| Mips32Access.PartStores | internal/cpu/mips32.go:263-279 | SWL and SWR each, byte by byte of memory |
| Mips32Access.CoprocessorMoves | internal/cpu/mips32.go:155-163 | MFC0 and MTC0; writing Compare withdraws the timer's request |
| Mips32Access.Returns | internal/cpu/mips32.go:164-176 | ERET goes to ErrorEPC and clears ERL if that is set, otherwise to EPC and clears EXL, and no other bit of Status changes |
| Mips32Access.NothingToDo | internal/cpu/mips32.go:50-216 | SYNC and CACHE change nothing |
| Mips32Access.RefusedIff | internal/cpu/mips32.go:30-219 | exactly the other words are refused, whatever the state |
| Core.Core.Unaligned32 | internal/cpu/mips32.go:247-279 | LWL, LWR, SWL and SWR by shifts and masks are the byte-wise merges |
| Unaligned.LoadPair | internal/cpu/mips32.go:247-279 | LWL then LWR three bytes on loads the word at any address, whatever the register held |
| Unaligned.StorePair | internal/cpu/mips32.go:247-279 | SWL then SWR three bytes on leaves every byte of memory as one word store at that address would |
| Core.Core.constructor | internal/cpu/core.go:39 | a new core has every register, HI, LO and COP0 zero, nothing pending, and its start address |
| Core.Core.Interrupt | internal/cpu/core.go:79-84 | one external line raised, nothing else |
| Core.Core.SetDebugPc | internal/cpu/core.go:43-50 | moves control and abandons a pending slot, or refuses a misaligned address and changes nothing |
| Core.Core.TickCount | internal/cpu/core.go:155-160 | Count goes up by one, wrapping, and a nonzero Compare it meets raises the timer |
| Core.Core.ServiceInterrupt | internal/cpu/core.go:162-189 | an interrupt is taken exactly when a request is deliverable, with Cause, EPC, EXL, vector and reservation as the architecture has them |
| Core.Core.StepWithInterruptBoundary | internal/cpu/core.go:92-153 | a step of the class is the step function, on success and at every error |
| Core.Core.Restore | internal/cpu/snapshot.go:33-64 | an acceptable state is installed whole; any other is refused and nothing changes |
| Stepping.Operate16Even | internal/cpu/mips16.go:15-398 | every MIPS16 instruction leaves control at an even address |
| Stepping.Operate16Zero | internal/cpu/mips16.go:15-398 | no MIPS16 instruction writes register 0 |
| Stepping.StepKeeps | internal/cpu/core.go:92-153 | every step, retiring or halting, keeps register 0 zero, PC even, an empty delay record when unarmed and an aligned source when armed |
| Stepping.EveryRun | internal/cpu/core.go:92-153 | whatever drives a fresh core, the invariant holds, and a snapshot of it is taken back exactly when its MIPS32 addresses are word-aligned |
| Stepping.RestoreAcceptsReachable | internal/cpu/snapshot.go:50-55 | of the reachable states, Restore accepts exactly the word-aligned ones |
| Stepping.RefusedAfterJump | internal/cpu/snapshot.go:50-55 | a concrete run, one JR, into a state Restore refuses |
| Stepping.SlotIsNotInterrupted | internal/cpu/core.go:99-110 | with a slot pending no interrupt is taken and only Count and the timer may move |
| Stepping.DeliveryMasks | internal/cpu/core.go:162-189 | after a delivery nothing more is deliverable until Status is changed |
| Stepping.InterruptReturns | internal/cpu/mips32.go:164-176 | an interrupt, then ERET with Status and EPC preserved, restores PC, instruction set and Status exactly, whatever else the handler did |
| Stepping.InterruptBreaksLink | internal/cpu/core.go:162-189 | a delivered interrupt breaks an LL/SC pair: SC answers zero and stores nothing |
| Interrupts.DeliverableIff | internal/cpu/core.go:162-173 | an interrupt is taken exactly when IE is set, EXL and ERL are clear, and some bit is both requested, by a line or the timer, and enabled |
| Interrupts.DeliveryTakes | internal/cpu/core.go:174-189 | what it leaves, bit by bit: the vector BEV selects, EPC with the instruction set in bit 0, EXL, in Cause the requests and no exception code, no line, no reservation, nothing else |
| Interrupts.RaisedBits | internal/cpu/core.go:79-84 | the lines raised at the boundary are pending beside those that were |
| Interrupts.CountsUp | internal/cpu/core.go:92-160 | Count goes up once before an instruction, twice if an interrupt is taken there and not at all before a MIPS32 slot; the timer asks once it has met a nonzero Compare |
| Stepping.MatchesOracle | reference/mips16.js:1101-1383 | a MIPS16 step with no interrupt is the oracle's step: both refuse with nothing changed, or both reach the same state; SAVE/RESTORE, zero divisors and a transfer in a slot are the only differences |
| Stepping.Lockstep | reference/mips16.js:1010-1383 | the two processors stay equal for any number of steps away from those three |
| Mips16Meaning.Sums | reference/mips16.js:364-386 | ADDIU sp, ADDIU pc, ADDIU and LI, bare and extended, on assembled halfwords; a PC-relative one in a slot counts from the jump |
| Mips16Meaning.AddsFour | reference/mips16.js:482-491 | ADDIU between two registers with four signed bits |
| Mips16Meaning.AddsFifteen | reference/mips16.js:482-491 | the same extended, with fifteen |
| Mips16Meaning.Adjusts | reference/mips16.js:542-550 | ADJSP, its bare amount in eights |
| Mips16Meaning.Tests | reference/mips16.js:502-510 | SLTI, SLTIU and CMPI leave their answer in register 24 |
| Mips16Meaning.Conditionals | reference/mips16.js:428-443 | BEQZ and BNEZ are taken exactly on zero and on nonzero, to the offset from the next instruction |
| Mips16Meaning.TestBranches | reference/mips16.js:519-533 | BTEQZ and BTNEZ, on register 24 |
| Mips16Meaning.StackWords | reference/mips16.js:1269-1293 | words loaded and stored beside the stack pointer, ra's among them, and loaded beside the PC |
| Mips16Meaning.Loads16 | reference/mips16.js:1253-1268 | LB, LBU, LH, LHU and LW from their bytes, offsets scaled when bare and not when extended |
| Mips16Meaning.Stores16Bytes | reference/mips16.js:1281-1289 | SB, SH and SW change exactly their bytes |
| Mips16Meaning.Shifts16 | reference/mips16.js:444-474 | the shifts by an amount, where a bare zero stands for eight and an extended one for itself |
| Mips16Meaning.VariableShifts | reference/mips16.js:752-756 | the shifts by a register's low five bits |
| Mips16Meaning.Bits16 | reference/mips16.js:742-751 | AND, OR, XOR and CMP, bit by bit |
| Mips16Meaning.Complements | reference/mips16.js:742-751 | NOT and NEG |
| Mips16Meaning.Arithmetic16 | reference/mips16.js:689-701 | ADDU and SUBU of three registers, SLT and SLTU of two |
| Mips16Meaning.Moves | reference/mips16.js:555-573 | moves between a named register and any of the thirty-two, its number in two pieces for MOV32R, and from HI and LO |
| Mips16Meaning.Conversions | reference/mips16.js:1243-1250 | ZEB, ZEH, SEB and SEH |
| Mips16Meaning.Products16 | reference/mips16.js:1221-1228 | the whole product in HI and LO |
| Mips16Meaning.Quotients16 | reference/mips16.js:1229-1240 | quotient and remainder; dividing by zero leaves the dividend and zero |
| ControlFlow.AlwaysBranches | reference/mips16.js:387-400 | B goes to its eleven or sixteen signed bits, in halfwords from the next instruction |
| ControlFlow.CallsInRegion | reference/mips16.js:402-426 | JAL and JALX: the scrambled index, the slot's region, the link past the slot with bit 0 set |
| ControlFlow.RegisterJumps | reference/mips16.js:715-727 | JR, JALR, JRC and JALRC: bit 0 picks the instruction set, the first two have a slot, and what each links |
| ControlFlow.Prefixes | reference/mips16.js:1061-1075 | a halfword with EXTEND's opcode lends its eleven bits to the next; any other stands alone |
| ControlFlow.StepsOn | internal/cpu/core.go:121-150 | outside a slot a MIPS32 step goes four bytes on, eight past an annulled slot, at once to the target of ERET, or on with a jump remembered |
| ControlFlow.SlotLands | internal/cpu/core.go:132-138 | the step after a jump lands where the jump was going, or stops if it is a transfer itself, after its effects |
| ControlFlow.Stops | internal/cpu/core.go:112-131 | a misaligned PC or a word that is no instruction stops the step with nothing changed |
| ControlFlow.BranchAndSlot | internal/cpu/mips32.go:117-118 | BEQ from end to end: its slot runs either way, and then control is at the target exactly if the registers were equal |
| Huffman.EqualsSignLine | internal/broadcast/huffman.go:106-111 | a line starting with "==" is the code of the equals sign, whatever follows |
| Huffman.BestIsShortest | internal/broadcast/huffman.go:50-97 | what the loading loop keeps for a value is the shortest code any line gives it, if any does |
| Huffman.BestIsFirst | internal/broadcast/huffman.go:64-82 | and of the lines that give so short a code the first is the one kept |
| Huffman.LineReads | internal/broadcast/huffman.go:60-66 | a line of any one byte, or of bytes without an equals sign, with digits after "=" and returns at its end, gives that value that code |
| Huffman.LineIs | internal/broadcast/huffman.go:60-66 | and only such a line gives anything |
| Huffman.HuffmanDictionary.Load | internal/broadcast/huffman.go:50-97 | after loading, exactly the values mentioned are kept, each with a shortest code of its own, the terminator too, and the lengths are listed longest first |
| Huffman.HuffmanDictionary.EncodeBits | internal/broadcast/huffman.go:123-147 | the bit string is that of the longest-match cover, or nothing where no value starts the rest |
| Huffman.HuffmanDictionary.PadToByteBoundary | internal/broadcast/huffman.go:173-187 | the filler is whole terminators and then as much of one as fits, up to whole bytes, the first six bits wide |
| Huffman.HuffmanDictionary.PackHuffman | internal/broadcast/huffman.go:193-199 | the bytes packed are those whose reader sees the padded bits |
| Huffman.PackUndone | internal/broadcast/huffman.go:193-210 | reading six bits of the first byte and eight of each other gives back exactly the bits packed |
| Huffman.HuffmanDictionary.Encode | internal/broadcast/huffman.go:123-147 | the method is the encoding function the round trip is about |
| Huffman.HuffmanDictionary.BuildTree | internal/broadcast/huffman.go:216-240 | the inserted codes make the decoder's tree |
| Huffman.HuffmanDictionary.Decode | internal/broadcast/huffman.go:216-267 | the walk of the masks over the bytes is the reading function, its flag saying that the terminator was met |
| Huffman.TreeHolds | internal/broadcast/huffman.go:216-240 | the tree of a prefix-free table has the codes' prefixes for inner nodes and the codes for leaves, and no other path |
| Huffman.FillerIsInert | internal/broadcast/huffman.go:173-187 | what follows the terminator emits nothing and keeps a reader that goes on inside the tree |
| Huffman.DictionaryRoundTrip | internal/broadcast/huffman.go:123-267 | over any prefix-free dictionary, in whatever order its codes are walked: what Encode produces decodes to the text and true, and a reader that ignores the terminator and reads to the last byte emits exactly the text; Encode refuses exactly the texts its values do not cover |
| HuffmanClash.TreeOf | internal/broadcast/huffman.go:224-240 | the tree of any table has the codes' prefixes for paths and, at each code, the value inserted there last |
| HuffmanClash.MeetsDecides | internal/broadcast/huffman.go:242-267 | the first value a reader comes to begins the text it answers, and the terminator ends it |
| HuffmanClash.LoadingLeavesLoaded | internal/broadcast/huffman.go:50-97 | whatever loads has a terminator, and no empty value or code |
| HuffmanClash.ClashLosesValue | internal/broadcast/huffman.go:123-267 | a value is lost, in any walk of the codes, if the shortest code that begins its own belongs only to values that do not begin it |
| HuffmanClash.TerminatorLosesValue | internal/broadcast/huffman.go:123-267 | a value is lost if the terminator begins its code with nothing shorter before it |
| HuffmanClash.EmptyTextIff | internal/broadcast/huffman.go:123-267 | the empty text comes back exactly when no code is a proper beginning of the terminator |
| HuffmanClash.AllComeBackIff | internal/broadcast/huffman.go:123-267 | where no value begins another, every text comes back exactly when no code begins another |
| HuffmanClash.ClashLoads | internal/broadcast/huffman.go:50-97 | the lines "a=0", "b=01" and "=11" load, and to exactly that dictionary |
| HuffmanClash.LoadedClashLosesText | internal/broadcast/huffman.go:50-97 | with what those lines load "b" does not come back, in whatever order the codes are met |
| HuffmanClash.ClashWithoutLoss | internal/broadcast/huffman.go:123-267 | a = 0, aa = 00 with terminator 1 is not prefix-free and brings every text back |
| HuffmanClash.PrefixClash | internal/broadcast/huffman.go:216-267 | the decoder's table a = 0, b = 01, terminator 11 does not bring "b" back |
| Titles.BuildRecord | internal/broadcast/titles.go:88-123 | one record, with the source's refusals in the source's order |
| Titles.RecordAccepted | internal/broadcast/titles.go:88-123 | a record is built exactly when its times are even seconds that halve into sixteen bits, its rating has four bits, and its title can be coded in at most 248 bytes |
| Titles.TitleSection | internal/broadcast/titles.go:50-73 | the method builds the section the round trip is about, or gives the same error |
| Titles.SectionAccepted | internal/broadcast/titles.go:50-73 | a section is built exactly when it has records, each can be built, and thirteen bytes and a title for each stay within 1024 with the fourteen around them |
| Titles.ReadsRecords | internal/broadcast/titles.go:88-123 | a reader going on by the length plus the four bytes it does not count finds exactly the records |
| Titles.TitlesRoundTrip | internal/broadcast/titles.go:50-123 | from any section that is built a receiver reads its address and exactly its records, times doubled and titles decoded, and its checksum is right |
| Titles.ReducesIntoDay | internal/multiplex/multiplex.go:760-804 | Go's two truncating remainders give the time of day on either side of midnight |
| Titles.AcceptanceIsIndependent | internal/multiplex/multiplex.go:714-727 | whether a section builds does not depend on table, channel, filter, version or numbers |
| Titles.KeptIsAccepted | internal/multiplex/multiplex.go:714-727 | any quarter kept by the trial build is accepted by the later real build with any other address |
| Titles.LeftOutDoesNotBuild | internal/multiplex/multiplex.go:760-804 | a programme left out is one its quarter's section, as it stood, could not take; everything else is there in order |
| Titles.DayRecords | internal/multiplex/multiplex.go:760-804 | in each quarter: the records of the day's programmes with that local quarter, in order, each with the time of day that the offset takes back to its local one, its seconds, number, title, genre and rating; a section takes them at every address; and each programme of the quarter that is missing is one whose record made no section with those before it |
| Titles.OnlyRecord | internal/multiplex/multiplex.go:772-790 | one record, and only one, tells a programme, and it is the one the loop builds |
| Titles.KeptHolds | internal/multiplex/multiplex.go:772-798 | the same of what the trial build has kept after any number of programmes |
| Packing.PackSections | internal/broadcast/sections.go:290-315 | the loop computes the packing, refusing at the first item too large for a section by itself |
| Packing.PackingSpreads | internal/broadcast/sections.go:290-315 | no item is lost, the order is kept and no group exceeds a section |
| Packing.PackingIsTightest | internal/broadcast/sections.go:290-315 | no way of spreading the items in order over sections that fit uses fewer |
| Packing.NoEmptySections | internal/broadcast/sections.go:290-315 | no group is empty unless there is nothing to send |
| Sections.NumberedSection | internal/broadcast/sections.go:628-646 | a section with its header, numbers and checksum, or the source's refusal |
| Sections.NumberedIff | internal/broadcast/sections.go:616-650 | a section is built exactly when its version and numbers fit their fields and it stays within 1024 bytes |
| Sections.SectionParses | internal/broadcast/sections.go:628-646 | a receiver reads back every field and the payload, and the section checks out and is within its limit |
| Sections.TableParses | internal/broadcast/sections.go:212-228 | each section of a table is in its place, numbered from zero to the last |
| Sections.SDT | internal/broadcast/sections.go:200-228 | the method builds the table the next two rows are about |
| Sections.SdtCarriesEverything | internal/broadcast/sections.go:200-228 | a receiver gathering the sections has every service entry once, in order; each section fits, checks out and is numbered |
| Sections.SdtFailsOnlyFor | internal/broadcast/sections.go:200-228 | after packing nothing is refused for length or number: only a bad entry, too many sections or a bad version |
| Sections.IndexSection | internal/broadcast/sections.go:1020-1048 | bytes 6 and 7 rewritten and the checksum computed again, or the source's refusal |
| Sections.DispatchedIff | internal/broadcast/sections.go:1003-1014 | the extensions dispatched: two single ones, the letters IndexLetter writes, and 0x100 to 0x1CF |
| Sections.CategorySlots | internal/broadcast/sections.go:990-999 | the sixty-four that IndexCategory writes are dispatched and reach the consumer's sixty-four slots, one each |
| Sections.AliasesOfCategories | internal/broadcast/sections.go:957-968 | an extension that differs only in the two bits the consumer ignores lands in the same slot, and is dispatched but for the last block |
| Sections.IndexCarries | internal/broadcast/sections.go:1020-1048 | after the rewrite the section checks out, says the numbers asked for and gives its records back |
| Sections.IndexIsNumberedIff | internal/broadcast/sections.go:1020-1048 | the result is numberedSection's for the same numbers exactly when the number is not past the last or the version is refused; otherwise it is a section numberedSection refuses |
| Sections.IndexNumbersUnchecked | internal/broadcast/sections.go:1042-1047 | numbers numberedSection would refuse are accepted here |
| Bouquet.DescriptorBoundary | internal/broadcast/sections.go:456-469 | the end of the last whole descriptor at or before the limit |
| Bouquet.LineupDescriptors | internal/broadcast/sections.go:527-559 | the line-up descriptors, twenty-eight entries each behind the gate, or the first entry a field does not fit |
| Bouquet.ServiceListDescriptor | internal/broadcast/sections.go:737-749 | three bytes a service, or the refusal of a list too long |
| Bouquet.LinkageDescriptor | internal/broadcast/sections.go:490-502 | the linkage descriptor of a transport that has one |
| Bouquet.TransportDescriptors | internal/broadcast/sections.go:433-448 | the namespace, the service list and the line-up of a transport, in that order, or the refusal |
| Descriptors.TransportShape | internal/broadcast/sections.go:433-448 | a loop with a line-up opens with its only specifier; one without has neither |
| Descriptors.TransportAnnounces | internal/broadcast/sections.go:430-502 | from a transport's loop a receiver reads back every service, in order and with its kind, and one linkage of kind 0x91 to its first service |
| Bouquet.StrippedRejoins | internal/broadcast/sections.go:332-469 | with the injected namespaces removed the pieces are exactly the transport's descriptors, cut only between descriptors |
| Bouquet.PiecesFit | internal/broadcast/sections.go:371-402 | every piece is within the budget of a section |
| Bouquet.GuestSeesLineup | internal/broadcast/sections.go:332-469 | however a transport is cut, a guest that forgets the namespace at every loop ends with its whole line-up, in order |
| Bat.CutTransport | internal/broadcast/sections.go:375-402 | the inner loop cuts one transport into those pieces |
| Bat.CutAll | internal/broadcast/sections.go:364-403 | the outer loop cuts every transport |
| Bat.BAT | internal/broadcast/sections.go:332-429 | the method builds the table the next three rows are about, or gives the same error |
| Bat.BouquetReads | internal/broadcast/sections.go:343-353 | the bouquet's loop reads back as its name and a linkage of kind 0x91 to the first transport's first service |
| Bat.BatCarriesEverything | internal/broadcast/sections.go:332-429 | in every table that succeeds each section fits, checks out, is in its place and repeats the bouquet's loop, and a receiver gathers every piece of every transport, in order |
| Bat.TransportArrivesWhole | internal/broadcast/sections.go:332-559 | a transport's gathered pieces, injected 0x5F prefixes removed, are its descriptors, and each line-up descriptor is seen in force |
| Bat.BatShowsLineups | internal/broadcast/sections.go:332-559 | from the sections of any table that succeeds the guest sees, under each transport's id, exactly the line-ups announced for it, in order |
| Bat.BatFailsOnlyFor | internal/broadcast/sections.go:332-429 | with inputs that can be announced the table fails only for needing too many sections or for its version |
| Crc.MPEGCRC32 | internal/dvb/crc.go:6-19 | the nested loops compute the checksum that CrcRemainder.ChecksumIsRemainder says is the remainder |
| CrcRemainder.ChecksumIsRemainder | internal/dvb/crc.go:6-19 | a word is the checksum exactly when its terms are what is left of the message times x^32, its first 32 bits inverted, after division by x^32+x^26+x^23+x^22+x^16+x^12+x^11+x^10+x^8+x^7+x^5+x^4+x^2+x+1, in polynomials over two elements |
| CrcRemainder.OneRemainder | internal/dvb/crc.go:6-19 | a polynomial has only one remainder |
| CrcRemainder.CheckValues | internal/dvb/crc.go:6-19 | 0xFFFF_FFFF for no bytes and 0x4E08_BFB4 for one zero byte |
| Crc.StepInjective | internal/dvb/crc.go:10-16 | one bit step is a bijection of the register |
| Crc.FeedIsSteps | internal/dvb/crc.go:6-19 | feeding bytes is mixing them into the register's top and stepping |
| Crc.BurstDetected | internal/dvb/crc.go:6-19 | messages that differ only within four consecutive bytes always have different checksums |
| Crc.ResidueZero | internal/broadcast/sections.go:652-655 | a message checks out as zero exactly when its last four bytes are the checksum of the rest |
| Crc.WithCrcChecks | internal/broadcast/sections.go:652-655 | what withCRC appends makes every section check out |
| Transport.PacketizeSection | internal/dvb/transport.go:6-35 | the loop over one buffer lays out the packets |
| Transport.PacketizePES | internal/dvb/transport.go:41-76 | the same for PES, with an adaptation field before a short payload |
| Transport.SectionMarked | internal/dvb/transport.go:6-35 | every packet is 188 bytes, on its PID, a start only if first, and counts on from the one before |
| Transport.SectionArrives | internal/dvb/transport.go:6-35 | a receiver reassembles a section of any length exactly, followed only by the last packet's stuffing |
| Transport.PesMarked | internal/dvb/transport.go:41-76 | the same marks for PES packets |
| Transport.PesArrives | internal/dvb/transport.go:41-76 | a receiver reassembles a PES packet of any length exactly |
| Transport.Multiplex.Send | internal/multiplex/multiplex.go:298-314 | one emission's packets go out and, with everything before them, each PID's counters stay consecutive modulo sixteen and its sections recoverable in order |
| Transport.Multiplex.Pump | internal/multiplex/multiplex.go:298-314 | before NextDue nothing happens; otherwise the carousel takes the wave's step and its wave goes out, up to a refused push, with every PID's counters still consecutive |
| Transport.Multiplex.SendAll | internal/multiplex/multiplex.go:306-312 | over any sequence of waves that invariant holds, also when a push is refused |
| Carousel.Carousel.Wave | internal/broadcast/carousel.go:194-283 | the method asks the rungs and moves the schedule as the wave function does, failures included; when it asks is Repetition.AskedIff |
| Repetition.AskedIff | internal/broadcast/carousel.go:194-283 | over every run whose instants do not fall below its first, a wave asks a rung exactly when the rung is there, no earlier rung failed in that wave, the rung below has given something and settled, and the rung's own period has passed since it last answered |
| Repetition.AskedOnTime | internal/broadcast/carousel.go:194-283 | the same in plain sums while they stay below 2^64: it is asked at the first instant that its period and its gate allow, and at no other |
| Repetition.PeriodApart | internal/broadcast/carousel.go:194-283 | two questions to one rung, the first of them answered, are at least that rung's own period apart |
| Repetition.EveryRunIsPaced | internal/broadcast/carousel.go:194-283 | that with the counter's wrap-around: no question comes before the last answer plus the period, as uint64 adds them |
| Carousel.Carousel.NextDue | internal/broadcast/carousel.go:292-334 | the method computes the instant the next rows are about |
| Carousel.NextDueIsExact | internal/broadcast/carousel.go:292-334 | before it no source but the events' is due; at or after it one is |
| Carousel.EarlyWaveIsEvents | internal/broadcast/carousel.go:194-334 | a wave before it asks at most the events and moves only their schedule |
| Carousel.EarlyWaveIsSilentIff | internal/broadcast/carousel.go:194-334 | skipping that wave loses something exactly when events were due |
| Carousel.DueWaveAsks | internal/broadcast/carousel.go:194-334 | a wave at or after it always asks something, so a driver never spins |
| Carousel.PumpingIsPolling | internal/broadcast/carousel.go:194-334 | with no event source, over any instants, calling Wave only when due sends the same waves at the same instants as polling at every one |
| Carousel.PumpingIsPollingIff | internal/broadcast/carousel.go:194-334 | with an event source too, over any run, pumping equals polling exactly when events were due at no skipped instant |
| Carousel.EventsWait | internal/broadcast/carousel.go:292-334 | a schedule on which pumping holds back events that polling sends |
| Carousel.EveryRunIsSafe | internal/broadcast/carousel.go:194-283 | over every run each rung is asked only after its predecessor's first nonempty answer plus its settle, whatever fails |
| Carousel.SettleIsADelay | internal/broadcast/carousel.go:194-283 | a settle delays exactly as long as it does not overflow the counter |
| Carousel.NothingIsDropped | internal/broadcast/carousel.go:194-283 | in a run with no failure everything the sources say is sent, in the order said |
| OnAir.WhatGoesOut | internal/broadcast/carousel.go:194-283 | what is sent is what the waves that did not fail were answered; the rest is counted as dropped |
| OnAir.NothingDroppedIff | internal/broadcast/carousel.go:194-283 | everything answered is sent exactly when no failing wave had been answered anything first |
| OnAir.OrderSurvives | internal/broadcast/carousel.go:213-283 | with settles after the clock and the line-up and, given an index, after the titles with nobody else in between, what goes out keeps the order and the settles whatever fails |
| OnAir.OrderUpset | internal/broadcast/carousel.go:213-283 | for every other schedule, a source and a run that put a rung on the air with nothing of the one below |
| OnAir.OrderSurvivesIff | internal/broadcast/carousel.go:213-283 | the order on the air survives every failure exactly for those schedules |
| OnAir.LiveIsOrdered | internal/broadcast/carousel.go:194-283 | a run that stops at its first failure goes out in order, settles included, for every schedule |
| Carousel.FailureLosesTheClock | internal/broadcast/carousel.go:194-283 | a run in which a failing line-up drops the clock of its wave, and a line-up is the first thing on the air |
| BusSnapshot.LoadInstalls | internal/bus/snapshot.go:133-147 | the restoring loop installs each blob and stops at the first refusal with no later device touched |
| BusSnapshot.UndoRestores | internal/bus/snapshot.go:158-167 | a rollback nobody refuses puts every device reached back, whatever it had done to itself |
| BusSnapshot.AllOrNothing | internal/bus/snapshot.go:66-167 | a restore installs every blob, or changes nothing, or leaves the unknown state, the last only if a device refuses a blob just taken from it |
| BusSnapshot.SnapshotRoundTrip | internal/bus/snapshot.go:37-148 | a snapshot restored over any later state puts every trusted device back |
| BusSnapshot.LegacyKeepsAudio | internal/bus/snapshot.go:81-119 | an image older than the audio control leaves that device as it stands |
| BusSnapshot.UnknownRefuses | internal/bus/snapshot.go:37-69 | in the unknown state snapshot and restore are refused and change nothing, until a reset |
| BusSnapshot.Bus.Snapshot | internal/bus/snapshot.go:37-57 | the named set of every device's blob, or nothing |
| BusSnapshot.Bus.Restore | internal/bus/snapshot.go:66-148 | the loops in place end as the restore function does |
| BusSnapshot.Bus.Rollback | internal/bus/snapshot.go:158-167 | every device reached is given its blob back, even after one refuses |
| BusSnapshot.Bus.Reset | internal/bus/bus.go:340-347 | every device at its initial state and the unknown state cleared |
| MachineSnapshot.UndoIsExact | internal/machine/snapshot.go:184-200 | an undisputed rollback is exact; with trusted owners it is undisputed exactly when the core's own test accepts the core |
| MachineSnapshot.MachineAllOrNothing | internal/machine/snapshot.go:99-200 | a machine restore installs every member, or leaves everything as it was, or leaves a machine or a bus that refuses from then on |
| MachineSnapshot.MachineRoundTrip | internal/machine/snapshot.go:53-200 | saving one running machine and restoring it over another succeeds exactly when the saved core is word-aligned; failing, the other is itself or lost, exactly as its own core is word-aligned or not |
| MachineSnapshot.OwnSnapshotLosesTheMachine | internal/machine/snapshot.go:99-132 | a reachable machine that is lost by restoring the snapshot just taken of it |
| MachineSnapshot.LostBusRefusesTheMachine | internal/machine/snapshot.go:53-132 | once the machine or its bus is unknown nothing is saved and no restore succeeds |
| MachineSnapshot.Board.Snapshot | internal/machine/snapshot.go:53-96 | every owner's blob, or nothing |
| MachineSnapshot.Board.RestoreAll | internal/machine/snapshot.go:134-158 | owners restored in the source's order, the bus last, stopping at the first refusal |
| MachineSnapshot.Board.UndoAll | internal/machine/snapshot.go:184-200 | every owner but the bus is given its own blob back, whoever refuses |
| MachineSnapshot.Board.Restore | internal/machine/snapshot.go:99-132 | the method ends as the restore function does |
| Flash.PackedUnpacks | internal/memory/flash.go:21-33 | commandState reads back what setCommand packed |
| Flash.StateExplained | internal/memory/flash.go:103-163 | after any writes since a reset, the sequencer's state says which writes came immediately before, and an erase set up has a matching unlock with no erase since |
| Flash.OnlyThreeWays | internal/memory/flash.go:103-163 | over every run a byte changes only by AND on the write right after AA@555, 55@2AA, A0@555, or to FF over its sector or the chip with an unlocked 80 outstanding and AA, 55 immediately before |
| Flash.BitsOnlyClear | internal/memory/flash.go:103-163 | between erases every byte only loses bits |
| Flash.ReachableBytes | internal/memory/flash.go:236 | the command bytes runs reach are exactly those Restore accepts with no program pending inside an unlock |
| Flash.RunsAreAcceptable | internal/memory/flash.go:236 | every state a run reaches passes Restore |
| Flash.ProgramWorks | internal/memory/flash.go:107-115 | from rest, the program sequence programs its data and leaves nothing else changed |
| Flash.EraseWorks | internal/memory/flash.go:117-127 | from rest, the erase sequence erases the addressed sector and leaves nothing else changed |
| Flash.SectorsDivide | internal/memory/flash.go:165-179 | the uneven and the even sectors divide the chip |
| Flash.SectorsAre | internal/memory/flash.go:165-179 | the sectors are the 16, 8, 8 and 32 KiB of the boot block and then 64 KiB each: an offset's sector is the one between whose boundaries it lies |
| Flash.WhenF0Resets | internal/memory/flash.go:107-131 | F0 puts the sequence to rest exactly when no erase is set up and it is not a program's data in identification mode, and does nothing else exactly when it is no program's data |
| Flash.ResetDoesNotCancelErase | internal/memory/flash.go:128-131 | F0 with an erase set up is refused and leaves it set up |
| Flash.IdentifiesAligned | internal/memory/flash.go:60-76 | identification answers are reads of a repeating 00 04 22 49 exactly for aligned accesses |
| Flash.FlashChip.Write | internal/memory/flash.go:103-163 | the switch in place moves the packed byte, the array and the refusal count as the automaton says |
| Flash.FlashChip.Read | internal/memory/flash.go:59-100 | both paths are one byte-wise big-endian read |
| Flash.FlashChip.Restore | internal/memory/flash.go:222-243 | an acceptable state of the right size is installed whole, any other changes nothing |
| Ram.RAM.constructor | internal/memory/ram.go:59-72 | zeroed memory with a clear dirty set |
| Ram.RAM.Read | internal/memory/ram.go:95-147 | fast or straddling, one byte-wise big-endian read |
| Ram.RAM.Write | internal/memory/ram.go:114-169 | fast or straddling, one byte-wise big-endian store that marks exactly the pages it writes |
| Ram.FastLoad | internal/memory/ram.go:95-111 | the fast path's three shapes are the byte-wise read |
| Ram.FastStore | internal/memory/ram.go:114-130 | the fast path's bytes are the byte-wise store |
| Ram.ReadsBack | internal/memory/ram.go:95-161 | a load where a store was made gives the stored bytes the memory has and zeros past its end |
| Ram.LoadAfterStore | internal/memory/ram.go:95-161 | inside the memory it gives the value stored |
| Ram.BitsKept | internal/memory/ram.go:163-191 | setting one bit of a word changes no other |
| Ram.RAM.EachDirtyPage | internal/memory/ram.go:183-191 | the calls made are the dirty pages with their contents |
| Ram.ReportsInOrder | internal/memory/ram.go:183-191 | each call is a dirty page with its present bytes, in address order and once |
| Ram.EveryDirtyPage | internal/memory/ram.go:183-191 | no dirty page is left out |
| Ram.DirtyPagesSuffice | internal/memory/ram.go:114-206 | over any run of writes, laying the reported pages over the image at the last ClearDirty reproduces the memory exactly |
| Ram.RAM.ClearDirty | internal/memory/ram.go:202-206 | the set is empty and nothing else changes |
| Ram.RAM.MarkAllDirty | internal/memory/ram.go:210-215 | every page is marked and nothing else changes |
| Ram.RAM.Reset | internal/memory/ram.go:224-230 | zeroed memory, a clear set and no straddles |
| Decoder.PhysicalIs | internal/bus/bus.go:37-42 | the mask is the remainder modulo 512 MB, inside the two segments and nowhere else |
| Decoder.SameByte | internal/bus/bus.go:232-249 | two addresses reach the same byte of the same device exactly when they are one physical address |
| Decoder.UncachedAlias | internal/bus/bus.go:12-28 | every cached address and its uncached alias reach the same device offset |
| Decoder.AttachAccepts | internal/bus/bus.go:170-208 | an attachment is accepted exactly when its name is new and its bytes exist, are in physical space and are nobody's yet |
| Decoder.AttachClaims | internal/bus/bus.go:203-207 | it then claims exactly its own addresses and takes none from anyone |
| Decoder.BuiltIsMapped | internal/bus/bus.go:170-208 | after any sequence of attachments the map is sorted and disjoint |
| Decoder.AddressBus.Attach | internal/bus/bus.go:170-208 | the checks in order and the insertion, or a refusal that changes nothing |
| Decoder.AddressBus.Find | internal/bus/bus.go:277-294 | the last-hit shortcut and the binary search answer as a scan of all regions would, whatever was looked for before |
| Decoder.AddressBus.Record | internal/bus/bus.go:296-322 | one unmapped access counted as the census function counts it |
| Decoder.AddressBus.Deliver | internal/bus/bus.go:232-268 | an access reaches its device at its offset, or is noted with its reason |
| Decoder.AddressBus.ResetCensus | internal/bus/bus.go:344-345 | the census starts again as at the beginning of a run |
| Decoder.CensusIsFaithful | internal/bus/bus.go:296-322 | over any run, totals equal what the kept sites add up to plus what was dropped, every kept site has all its accesses, and nothing is dropped before the census is full |

## Left out

- Frames.ExecSave: works on the oracle's registers and memory as values threaded through loops, since plain JavaScript arrays are updated there; aliasing of the CPU object is not modelled.
- OracleExec: the oracle's `exec` is a function of registers and memory; its assembly text, disassembly and 64-bit encodings are not modelled, and neither is its `nextHw` argument beyond the two halfwords that decide an instruction.
- Stepping.MatchesOracle: instruction fetches and loads read a flat memory without side effects, so device registers read by prefetch are not modelled.
- Core.Core.Execute16: the register file is a sequence field assigned whole, not an array, and the bus is that flat memory.
- Core.Core.StepWithInterruptBoundary: the boundary callback may raise lines and may fail; other effects of device pumps are not modelled. GPR[0] is reset by an assignment that the invariant makes a no-op.
- Huffman.HuffmanDictionary.Decode: the decoder's trie is a value, not linked heap nodes; Go's random map order is an arbitrary order.
- Huffman.HuffmanDictionary.Load: takes the lines of the file; reading and hashing it are left out, and so is the check that at least one entry was read.
- Huffman.DictionaryRoundTrip: prefix-freeness is a hypothesis; HuffmanClash says what loading leaves without it.
- HuffmanClash.AllComeBackIff: the iff is for dictionaries in which no value begins another; in the others prefix-freeness is sufficient but not necessary, and the three loss lemmas still apply.
- Sections.SDT: takes the service entries already encoded; the bytes inside an SDT entry and NIT, PAT, PMT, CAT, EIT, TDT and TOT are not modelled, being fixed layouts with no further invariant.
- Bat.BAT: the meaning of operator-private descriptor fields is not modelled, only their bytes and the guest's gate on the namespace.
- Titles.DayRecords: the choice of the day's programmes and the local-time rules are inputs; request.go is not part of this model beyond the quarter of a time.
- Transport.Multiplex.Pump: the demultiplexer is a receiver that may refuse a push; what the sources put in a wave is theirs, so the title, index and event cursors are not modelled.
- OnAir.OrderSurvivesIff: about schedules whose settles together are less than half of the 64-bit counter, and runs that end at least a settle before its end; past that the counter wraps, as Carousel.SettleIsADelay says.
- Carousel.Carousel.constructor: the nil-source checks of NewCarousel are left out.
- BusSnapshot.AllOrNothing: a device is a pair of functions and is assumed to put a state back when it accepts a blob taken from it; the framing of a named set, snapcodec, is not part of this model and appears as a map with an exact-membership check. Without that assumption about devices no restore can be trusted.
- BusSnapshot.Bus.Reset: a device's power-on state is one fixed value, so a device whose reset keeps part of its state, as flash does, is modelled in its own module only.
- MachineSnapshot.Board.Snapshot: the size limit and the writer's errors are left out; the retired count is not bounded to 64 bits, and neither are the other 64-bit counters except the carousel's clock.
- MachineSnapshot.MachineRoundTrip: the core's part of the state is everything in the step function's state but the memory, which the bus owns.
- Decoder.AddressBus.Attach: the library sort of an almost sorted list is an insertion; a nil device is left out.
- Decoder.AddressBus.Deliver: stops at the device's door: what the device answers and the observer callback are left out.
- Flash.FlashChip.Write: ApplyHostPatch, a host-side edit outside the guest's protocol, is left out.
- The index cursor and version bookkeeping of the multiplexer, the line-up flags and the media selection: they would add only easy members.
- Peripherals, the clock's event queue, the state hash, the debugger stub, trace reporting, the web client and configuration.
