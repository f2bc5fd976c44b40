# LC-3 subset simulator, modelled in Dafny

This project models the simulator class `simulator/Computer.java`. It runs a
seven-instruction subset of the LC-3 teaching machine: BR, ADD, LD, ST, AND, NOT
and TRAP.

The machine state has:
- eight 16-bit registers;
- fifty 16-bit memory words;
- the program counter (PC) and the instruction register (IR);
- a three-bit condition code (CC), with bits N, Z and P.

The model also covers:
- the constructor;
- the program loader (`loadWord` and `loadMachineCode`);
- the seven `execute*` instruction handlers and the shared `setConditionCode`;
- the `execute` loop: fetch, increment PC, decode, dispatch;
- the nine unit-test programs of `simulator/ComputerTest.java`, replayed as lemmas
  about the final state.

The model follows the code as written, not the LC-3 manual. In particular:
- NOT sets CC from its destination-register *field* read as a 3-bit two's-complement
  number, whatever value it stores.
- AND and LD never touch CC.
- ADD in register mode reads the SR2 field as a signed 3-bit index, so SR2 fields
  4..7 name registers -4..-1 and fault.
- TRAP with a vector other than x21 or x25 does nothing and the run continues.
- LD adds the offset to PC read unsigned; ST adds it to PC read as two's complement.
  The two agree while PC is below 2^15 (`Handlers.LoadAndStoreAddressAlike`).

Files, one module each:
- `bits.dfy` (`Bits`): MSB-first bit strings, as the simulator's `BitString` class
  presents them:
  - unsigned and two's-complement readings and their inverses;
  - slices, sign extension, inversion and bitwise AND;
  - the textual 0/1 form of a program word.
- `machine.dfy` (`Machine`): the state, the constructor, the condition-code setter
  and the loader.
- `handlers.dfy` (`Handlers`): instruction fields and the seven handlers.
- `execute.dfy` (`Execute`): one cycle (`Step`) and a run bounded by a number of
  cycles (`Run`).
- `computer_test.dfy` (`ComputerTest`): the unit-test programs.

Where Java throws an exception, the model returns a `Fault` instead:
- a bad program length or a malformed word;
- a memory address or register index outside its range;
- a value with no 16-bit two's-complement form;
- an illegal opcode.

## Model

| member | source | states |
|---|---|---|
| Machine.Initial | simulator/Computer.java:29-48 | A new computer has register i holding i, every memory cell and IR zero, PC 0, CC 000 (none of N, Z, P set) and nothing printed. |
| ComputerTest.InitialIsFresh | simulator/ComputerTest.java:21-24 | The constructor's computer meets the freshness assumption of every test lemma, so the tests apply to `new Computer()`. |
| Machine.SetConditionCode | simulator/Computer.java:291-299 | CC has exactly one bit set: N iff the code is negative, Z iff it is zero, P iff it is positive. |
| Machine.LoadWord | simulator/Computer.java:104-109 | Storing succeeds iff the address is in 0..49. The word then sits at that address and nothing else changes; otherwise the fault names the address. |
| Machine.ParseWord | simulator/Computer.java:120-122 | A program word is accepted iff, with its spaces removed, it is 16 binary digits. Rendering the accepted bits gives back the cleaned text. |
| Machine.ParseWordByScan | simulator/Computer.java:120-122 | The space-removing parse agrees with an independent one-pass scan: it succeeds iff the scan sees exactly 16 digits and no other character. The parsed magnitude is then the scanned value. |
| Machine.WordFromScan | simulator/Computer.java:120-122 | A line the scan reads as 16 digits of value v parses to the 16-bit encoding of v. |
| Machine.ScanDigitsIsParse | simulator/Computer.java:122 | From any position, the digit-by-digit scan equals removing the spaces, parsing the digits and shifting them into the running value. |
| Machine.LoadWords | simulator/Computer.java:119-124 | Loading words i.. succeeds iff each of them parses. Word a then lands at address a and every other cell and component is unchanged. Otherwise the first malformed position is reported, every word before it being well formed. |
| Machine.LoadMachineCode | simulator/Computer.java:115-125 | 0 words or 50 or more are rejected. Otherwise loading succeeds iff every word parses: word i (spaces removed) goes to memory[i], and cells from the program's length on, the registers, PC, IR, CC and output are unchanged. |
| Machine.SignedReadingOfWord | simulator/Computer.java:147 | Reading PC's magnitude as two's complement gives the two's-complement reading of its 16 bits, as `get2sCompValue` does. |
| Bits.FromUnsignedOfUnsigned | simulator/Computer.java:40 | Encoding a bit string's magnitude back in its width gives the same bits. |
| Bits.FromSignedOfSigned | simulator/Computer.java:197 | Encoding a bit string's two's-complement reading back in its width gives the same bits. |
| Bits.SliceIsShiftAndMask | simulator/Computer.java:173 | A substring read unsigned is the word's magnitude shifted right past it and masked to its width. |
| Bits.SignExtendKeepsSigned | simulator/Computer.java:234-239 | Replicating the leading bit keeps the two's-complement value. |
| Bits.InvertSigned | simulator/Computer.java:262-263 | Flipping every bit of a two's-complement number gives its negation less one. |
| Bits.InvertUnsigned | simulator/Computer.java:263 | Flipping every bit gives the complement of the magnitude to 2^width - 1. |
| Bits.BitAndIsAndValue | simulator/Computer.java:243-250 | The bitwise AND of two bit strings has the magnitude given by an independent arithmetic AND, defined bit by bit through division by 2. |
| Bits.BitAndBelowOperands | simulator/Computer.java:243-250 | The AND never exceeds either operand's magnitude. |
| Bits.ParseRender | simulator/Computer.java:122 | Parsing the rendered text of some bits gives back those bits. |
| Bits.RenderParse | simulator/Computer.java:122 | Rendering the parse of well-formed digit text gives back the text. |
| Handlers.OpcodeValue | simulator/Computer.java:318-319 | The opcode is the word's magnitude divided by 4096, modulo 16. |
| Handlers.DrValue | simulator/Computer.java:173 | The DR field is the magnitude divided by 512, modulo 8. |
| Handlers.Sr1Value | simulator/Computer.java:174 | The SR1 field is the magnitude divided by 64, modulo 8. |
| Handlers.ImmediateModeValue | simulator/Computer.java:176 | Immediate mode holds iff bit 5 of the magnitude is set. |
| Handlers.Sr2Value | simulator/Computer.java:180 | The SR2 field is the magnitude modulo 8; ADD reads those 3 bits as two's complement. |
| Handlers.Imm5Value | simulator/Computer.java:177 | imm5 is the low 5 bits of the magnitude read as two's complement. |
| Handlers.Offset9Value | simulator/Computer.java:143 | The PC offset is the low 9 bits of the magnitude read as two's complement. |
| Handlers.TrapVectorValue | simulator/Computer.java:277 | The trap vector is the low 8 bits of the magnitude, read either way. |
| Handlers.Set2sCompValue | simulator/Computer.java:178 | Writing v succeeds iff -32768 <= v < 32768, and the word then reads back as v. Otherwise it is a value fault. |
| Handlers.WordRoundTrip | simulator/Computer.java:197 | Writing back a word's two's-complement reading reproduces the word, so LD and ST copy words exactly. |
| Handlers.BranchTakenIff | simulator/Computer.java:145-153 | A branch is taken iff N is tested and set, or Z is tested and set, or P is tested and set. |
| Handlers.Jump | simulator/Computer.java:147 | PC moves to its signed reading plus the offset when that fits 16 bits, nothing else changing. Otherwise it is a value fault. |
| Handlers.ExecuteBranch | simulator/Computer.java:141-155 | An untaken branch changes nothing. A taken one moves PC by the sign-extended offset, or faults when the target does not fit. Registers, memory and CC never change. |
| Handlers.NoBranchWithoutConditionCode | simulator/Computer.java:141-155 | With the constructor's CC of 000, BR never branches. |
| Handlers.StoreSum | simulator/Computer.java:178-183 | DR holds the sum and CC gives the sign of what DR holds. Other registers, memory, PC and IR are unchanged; a sum with no 16-bit form faults. |
| Handlers.ExecuteAdd | simulator/Computer.java:172-184 | DR := SR1 + sign-extended imm5 in immediate mode, else SR1 + SR2. An SR2 field of 4..7 is a register fault; a sum outside 16 bits is a value fault. CC follows the stored value and no other register changes. |
| Handlers.ExecuteLoad | simulator/Computer.java:193-198 | DR := memory[incremented PC + offset9] when that address is in 0..49, else an address fault. CC and every other component are unchanged. |
| Handlers.ExecuteStore | simulator/Computer.java:206-210 | memory[PC + offset9] := SR when that address is in 0..49, else an address fault. Only that one cell changes. |
| Handlers.LoadAndStoreAddressAlike | simulator/Computer.java:195-209 | While PC is below 2^15, LD's unsigned PC and ST's signed PC are the same number. |
| Handlers.AndOperand | simulator/Computer.java:233-242 | The second AND operand is twelve copies of imm5's sign bit followed by imm5's other four bits, whose two's-complement value is imm5; or, in register mode, SR2 read unsigned. |
| Handlers.ExecuteAnd | simulator/Computer.java:228-252 | DR's magnitude is the arithmetic AND of SR1's and the operand's magnitudes. No other register changes and CC is untouched. |
| Handlers.ExecuteNot | simulator/Computer.java:259-265 | DR := complement of SR, as both -SR - 1 and 65535 - SR. CC is N for DR fields 4..7, Z for field 0 and P for 1..3, whatever is stored. Nothing else changes. |
| Handlers.NotConditionCodeIgnoresResult | simulator/Computer.java:264 | R1 := NOT R0 with R0 = 0 stores -1 yet sets CC to P. |
| Handlers.ExecuteTrap | simulator/Computer.java:276-285 | Halt iff the vector is x25. x21 appends the character for R0's low byte to the output. Any other vector changes nothing. |
| Execute.Fetch | simulator/Computer.java:312-314 | IR := memory[PC] and PC := PC + 1 when PC is in 0..49, nothing else changing. Otherwise it is an address fault. |
| Execute.Dispatch | simulator/Computer.java:318-338 | Halts iff IR is TRAP x25 and faults on any opcode without a handler. No handler changes IR, only BR moves PC, only ST writes memory, only TRAP prints, only ADD and NOT set CC, and only DR may change. |
| Execute.DispatchIllegal | simulator/Computer.java:336-338 | A cycle reports an illegal opcode exactly when the opcode is not one of 0, 1, 2, 3, 5, 9, 15. |
| Execute.Step | simulator/Computer.java:310-339 | One cycle: PC outside memory faults; it halts iff the fetched word is TRAP x25, and reports an illegal opcode iff the fetched opcode has no handler. |
| Execute.StepAdvancesPc | simulator/Computer.java:312-314 | A cycle that does not fault leaves the fetched word in IR, and every instruction but BR leaves PC one past the fetched address. |
| Execute.StepBranch | simulator/Computer.java:141-155 | BR from inside memory never faults. Taken, PC becomes the incremented PC plus the offset; untaken, PC stays incremented. |
| Execute.StepMemory | simulator/Computer.java:206-210 | Memory changes only under ST, and then only the cell at the incremented PC plus the offset, which receives the source register. |
| Execute.StepRegisters | simulator/Computer.java:305-340 | No cycle changes a register other than the fetched DR, and a halt changes none. |
| Execute.StepOutput | simulator/Computer.java:276-285 | The output grows only under TRAP x21, by exactly the character for R0's low byte. |
| Execute.StepConditionCode | simulator/Computer.java:291-299 | Only ADD and NOT change CC. A CC that is 000 or one-hot stays so, and a one-hot CC stays one-hot. |
| Execute.IterateAdditive | simulator/Computer.java:310-339 | Running a + b cycles is running a cycles and then, if still running, b more. |
| Execute.IterateStopped | simulator/Computer.java:310 | Once a run has halted or faulted, more cycles change nothing. |
| Execute.IterateRunningBefore | simulator/Computer.java:310 | A run still going after b cycles was going after every a <= b. |
| Execute.IterateHaltIsDeterministic | simulator/Computer.java:310 | Every bound under which a run halts gives the same final state. |
| Execute.IterateLast | simulator/Computer.java:310-339 | The run with k cycles is the run with k - 1 cycles followed by one cycle. |
| Execute.IterateInvariant | simulator/Computer.java:310-339 | A property every cycle preserves holds after any number of cycles. |
| Execute.IterateOutputGrows | simulator/Computer.java:310-339 | When each cycle appends at most one output entry, k cycles append at most k and keep what was printed. |
| Execute.RunHaltsAt | simulator/Computer.java:334-335 | A run halts at cycle k iff it was running after k - 1 cycles and the next fetched word is TRAP x25. |
| Execute.RunConditionCode | simulator/Computer.java:291-299 | Through any run, a CC that is 000 or one-hot stays so, and a one-hot CC stays one-hot. |
| Execute.RunOutputGrows | simulator/Computer.java:279 | A run prints at most one character per cycle and never takes back what it printed. |
| ComputerTest.Loaded | simulator/Computer.java:115-125 | A program whose lines scan to given 16-bit values loads into a fresh computer with those values at the start of memory. The computer stays fresh. |
| ComputerTest.BranchTest | simulator/ComputerTest.java:39-51 | ADD R1 += 3, BRp +1, ADD R1 += 8, HALT halts after 3 cycles (the skipped ADD never runs) with R1 = 4, and stays halted. |
| ComputerTest.LoadTest | simulator/ComputerTest.java:57-68 | LD R0 from +1, HALT, data 65 halts after 2 cycles with R0 = 65. |
| ComputerTest.StoreTest | simulator/ComputerTest.java:74-85 | ADD R1 += 7, ST R1 at +2, HALT halts after 3 cycles with memory[4] = 8. |
| ComputerTest.AndTest | simulator/ComputerTest.java:91-102 | ADD R1 += 6, AND R1 with imm5 11101, HALT halts after 3 cycles with R1 = 5. |
| ComputerTest.NotTest | simulator/ComputerTest.java:108-132 | R4 := NOT R5, HALT halts after 2 cycles with R4 = -6 and CC = 100. |
| ComputerTest.AddRegistersTest | simulator/ComputerTest.java:139-154 | R0 := R2 + R2, HALT halts after 2 cycles with R0 = 4 and CC = 001. |
| ComputerTest.AddImmediateTest | simulator/ComputerTest.java:161-176 | R0 := R2 + #3, HALT halts after 2 cycles with R0 = 5 and CC = 001. |
| ComputerTest.AddNegativeTest | simulator/ComputerTest.java:183-197 | R0 := R2 + #-3, HALT halts after 2 cycles with R0 = -1 and CC = 100. |
| ComputerTest.LoadTrapTest | simulator/ComputerTest.java:204-214 | LD R0 from +2, TRAP x21, TRAP x25 halts after 3 cycles, having printed "A" (code 65). |

## Left out

- `display()` and the console formatting (simulator/Computer.java:345-379) are not modelled; they only print the state.
- The actual console print of TRAP x21 is replaced by appending the printed UTF-16 code unit to the state's `out` sequence.
- The defensive-copy getters and `copyBitStringArray` (simulator/Computer.java:56-97) are not modelled; copying is moot for immutable values.
- The IR/memory object aliasing at simulator/Computer.java:312 is not modelled. IR holds the fetched value, so a later write to that memory cell does not show through IR.
- The `BitString` class is not part of this model. Its readings are modelled from how `Computer.java` uses them:
  - `set2sCompValue` of a value outside -32768..32767 and a branch target without a 16-bit form are explicit faults. No wrap-around is guessed.
  - `addOne` on PC is not an issue: the fetch only proceeds from a PC below 50.
- Machine.ParseWord: the loader rejects any word that is not 16 binary digits after removing spaces (`InvalidWord`). `setBits` itself accepts other lengths, as the 3-bit CC writes at simulator/Computer.java:35 and :293-297 show. So the model faults where the Java would load a word of another length. How `BitString` stores such a word is not part of this model.
- `loadMachineCode` stores words one at a time, so a malformed word leaves the earlier ones in memory before the exception. The model reports the fault and drops the partly loaded state.
- A run that faults keeps only the fault, not the state at the moment of the exception.
- Exception classes and messages are reduced to the `Fault` datatype.
- The root `Computer.java` is an unfinished starter version and is not modelled. Its BR, ADD, LD, ST and AND handlers only print their mnemonic. Its NOT copies SR into DR and inverts it without setting CC. Its TRAP always halts.
- `Execute.Run`: the `execute` loop has no bound. The model runs at most `fuel` cycles, and a result of `Running` means the fuel ran out. Each test lemma proves the run halts and that any larger fuel gives the same final state.
- The test lemmas assume only what the constructor guarantees about the starting computer (`ComputerTest.Fresh`). `ComputerTest.InitialIsFresh` shows the constructor's computer qualifies.
- PC is kept as the unsigned reading of its 16 bits rather than as a bit string. BR and ST read it as two's complement through `Machine.SignedReading`, which agrees with the bit-level reading by `Machine.SignedReadingOfWord`.
- Where the code and its descriptions disagree, the model follows the code:
  - `executeLoad`'s comment says it sets CC, but it does not.
  - `executeAnd`'s comment says CC is set from the result, but it is not.
  - The store test's comment says "+ #1" while its offset field is 2. The model uses the encoded 2, which is what writes memory[4].
