# Armator: a verified model of the ARMv5 simulator

Armator interprets ARM machine code over a banked register file and a byte memory. This project
models its processor core and proves what the core keeps, what it computes, and where it departs
from the ARM Architecture Reference Manual (DDI 0100, "the manual" below).

- `Banking`, `RegisterFile`, `RegisterRuns`: the 37 words of `registers.c` behind a 7 x 18 pointer
  table. `Banking` names the registers as the architecture does (sections A2.2 to A2.5 of the
  manual) and ties the table to those names; `RegisterFile` is the C object, filled and updated in
  place; `RegisterRuns` is about arbitrary sequences of accessor calls and mode switches.
- `RegisterTest`: `registers_test.c` on an arbitrary pointer table, and what it decides.
- `Memory`: `memory.c`, with both byte orders of the memory and of the host.
- `Instruction`, `Shifter`, `Alu`, `Machine`, `Core`: fetch, decode and execution. `Machine` is the
  transition function on values; `Core` is the object that `arm_core.c` and the decoders update in
  place, each method shown to make the transition of `Machine`. `Shifter` and `Alu` hold the parts
  whose meaning is compared with the manual. The operand of `decode_so` and the sixteen results
  are values, so `Core` calls the functions of `Shifter` and `Alu` for them: what is known of those
  is the comparison with the manual, not a second form in place. The flags are set in place.
- `Reachable`: what every run of every program keeps.
- `Encoding`, `Assembled`: instructions as they are written. `Encoding` builds words from fields and
  shows that the decoder's fields are those; `Assembled` says what executing each word does, in the
  fields that were written, for data processing, transfers, branches, MRS, SWI and whole steps.
- `DataProcessing`: the whole state after a data-processing instruction against the manual's.
- `Single`, `Multiple`: branches, single transfers, and load and store multiple over every register list.
- `Layout`: where load and store multiple put the words, against section A5.4 of the manual, and
  the return from an exception by load multiple.
- `Misread`: instructions of the manual that the decoder takes for others.
- `Countdown`: `Examples/example1.s` as machine code, run by `Machine.Step`.
- `InsertionSort`: the sort of `Examples/insertion_sort.c`, on arrays of any length.
- `Words`, `Arith`, `Bitwise`: 32-bit words as bounded integers and as rows of bits, and the arithmetic
  they need.

`dafny verify dfyconfig.toml` checks the whole project.

## Conventions

A word is an integer below 2^32 and every wrap-around is written out. `&`, `|` and `^` go through the
operands bit by bit; a bitwise `or` of two values that share no bit is written as a sum. A NULL entry of the pointer table is `None`; following one is
a precondition of the register file's accessors and the outcome `Crash` of an instruction. Leaving
the simulator (`swi 0x123456`) is the outcome `Exit`. The byte order of the host is a parameter. The
global `shifter_carry_out` is set by every operand decode before it is used, so it is part of the
decoded operand. `ror` by 0 shifts a word left by 32, which C leaves open; the model takes 0 for that
half, and taking the word itself instead gives the same result.

The sources of the core other than `registers.c` and `registers_test.c` are ISO 8859-1 text. A row
of the table about one of them points at the line of `README`, or of an example program, that says
what the component is for, and gives the lines of the code itself in its third column.

## Where the program departs from its documents

The model follows the program. These are the departures that are proved, each by the lemmas named;
the list does not claim to be complete. Where an exact condition is given it holds in both
directions. Where the manual calls a result UNPREDICTABLE (a PC or half-word address that is not
aligned, r15 as an operand that excludes it, an SPSR copied in USR or SYS) the prescribed state is
what the program does.

- `README` says the core gives access to the registers "depending on cpsr content". The mode byte
  is independent of the CPSR, and no run from reset ever leaves SYS: `Reachable.RunsStayInSys`.
- V after ADD, ADC and CMN is computed from the difference of the operands, C after SBC and RSC is
  always set, and V after SBC and RSC is wrong in one case: `Alu.FlagsRightIff` gives the exact
  conditions and `Alu.FlagFailures` an input for each.
- LSR and ASR by a register whose low byte is 0 do not leave the operand alone:
  `Shifter.DecodeSoIsPrescribedIff`, with an input in `Shifter.RightByZeroFails`.
- A return from an exception by `movs pc, lr` copies the SPSR and leaves the mode as it was:
  `DataProcessing.ReturnKeepsMode`. With the two conditions above this decides every
  data-processing instruction on every operand: `DataProcessing.InstructionIsPrescribedIff`.
- A return by LDM with bit 22 and the PC loads nothing, pops nothing and keeps the mode:
  `Multiple.ReturnFormLoadsNothing`, `Layout.ReturnsAsPrescribedIff`, with an input in
  `Layout.ReturnFails`.
- The descending forms of STM and LDM put the lowest register at the highest address (section A5.4
  of the manual has it at the lowest): `Layout.PlaceIsPrescribedIff` for one register,
  `Layout.StoredAsPrescribedIff` and `Layout.LoadedAsPrescribedIff` for a whole transfer, with an
  input in `Layout.PushFailsToLayOut`. So a push followed by its pop reverses the registers:
  `Multiple.PushThenPopReverses`, with an input in `Multiple.PushThenPopOfTwoSwaps`.
- STM and LDM keep the two low bits of an address that is not aligned, which the manual ignores:
  `Layout.PlaceIsPrescribedIff`, with an input in `Layout.UnalignedStoreFails`.
- `registers_test.c` does not notice a FIQ bank that is not banked: `RegisterTest.TestAcceptsASharedFiqBank`.
- A half-word access takes an immediate offset when bit 22 is clear; the manual (section A5.3) says
  when it is set: `Single.HalfOffsetFails`. LDRSB and LDRSH are executed as LDRH:
  `Single.SignIsLost`. Exact conditions: `Single.HalfAccessRightIff`, `Single.HalfLoadRightIff`.
- BX, BLX, CLZ, saturating arithmetic and BKPT are executed as tests
  (`Misread.ControlIsExecutedAsTest`, `Misread.BranchExchangeRightIff`), MSR as MRS to the PC or as
  a test (`Misread.MsrRightIff`, `Misread.MsrImmediateFails`), MUL, SWP, LDRD and STRD as half-word
  stores (`Misread.MulRightIff`, `Misread.SwapLoadsNothing`, `Misread.DoublesStoreAHalf`).
- Undefined words of the load and store group are executed, and condition 15 never passes:
  `Misread.UndefinedIsExecuted`, `Misread.UnconditionalIsSkipped`.

## Model

| member | source | states |
|---|---|---|
| Banking.CellsAreNames | registers.c:27-38 | the 37 architectural registers and the 37 words correspond one to one, none left over |
| Banking.SlotReachesName | registers.c:61-137 | in every mode byte and for every register number the table points at the word of the architectural register, or is NULL where there is none |
| Banking.SlotsAliasIffSameName | registers.c:40-137 | two entries of the table hold the same pointer iff they name the same architectural register; unknown mode bytes count as SYS |
| Banking.DefinedSlots | registers.c:61-149 | numbers 0 to 16 are defined in every mode, 17 exactly in the five exception modes |
| RegisterFile.Registers.constructor | registers.c:61-137 | registers_create: the loops leave the whole layout, 37 zero words and mode SYS |
| RegisterFile.Registers.FillRow | registers.c:64-73 | one block of loops and assignments sets the 18 entries of its row and no other |
| RegisterFile.Registers.CurrentModeHasSpsr | registers.c:147-149 | true iff the current row's last entry is not NULL |
| RegisterFile.Registers.InAPrivilegedMode | registers.c:151-153 | true iff the mode is not USR |
| RegisterFile.Registers.ReadRegister | registers.c:155-158 | the word the current mode's entry points at |
| RegisterFile.Registers.ReadUsrRegister | registers.c:160-163 | the word the USR row's entry points at |
| RegisterFile.Registers.ReadSpsr | registers.c:170-173 | the word the current mode's last entry points at |
| RegisterFile.Registers.WriteRegister | registers.c:175-177 | changes exactly the word the current mode's entry points at |
| RegisterFile.Registers.WriteUsrRegister | registers.c:179-181 | changes exactly the word the USR row's entry points at |
| RegisterFile.Registers.WriteCpsr | registers.c:183-185 | changes exactly the CPSR's word, and not the mode |
| RegisterFile.Registers.WriteSpsr | registers.c:187-189 | changes exactly the current mode's SPSR |
| RegisterRuns.Perform | registers.c:143-189 | each accessor on the object makes the transition of the run model and keeps the layout |
| RegisterRuns.PerformAll | registers.c:143-189 | any run of accessors and mode switches on the object ends in the state of the run model, layout kept |
| RegisterRuns.RunRefinesNames | registers.c:155-189 | after any run each architectural register holds the last value written to it under any mode's name, or its first value |
| RegisterRuns.LastWrittenIsUnique | registers.c:155-189 | "the last value written" determines one value |
| RegisterRuns.ReadsReturnLastWrite | registers.c:40-189 | every read of a run from creation returns the last value written to the same architectural register, or 0 |
| RegisterRuns.RunDefinedIff | registers.c:147-189 | a run reaches a real word at every access iff it never asks for an SPSR the mode at that point lacks |
| RegisterRuns.AccessorsKeepMode | registers.c:143-189 | accessor calls alone, CPSR writes included, never change the mode |
| RegisterRuns.BankWritersAreOwners | registers.c:74-123 | a write reaches an exception mode's bank iff that mode issues it to one of its own numbers |
| RegisterRuns.BankDependsOnOwnWritesOnly | registers.c:74-189 | two runs in which an exception mode issues the same own writes leave its bank the same, whatever else they do |
| RegisterRuns.OwnWritesAreInvisibleOutside | registers.c:74-189 | taking an exception mode's own writes out of a run changes nothing any other mode reads |
| RegisterRuns.ReorderingIsHarmless | registers.c:175-189 | runs that write the same values in the same order to each architectural register leave the same 37 words |
| RegisterRuns.WritesCommuteIff | registers.c:175-177 | two writes commute in every state iff they do not alias or write the same value |
| RegisterRuns.DumpAndReload | registers.c:155-177 | writing what a file shows, at any covering list of places in any order, into a fresh file reproduces all 37 words |
| RegisterRuns.SameReadsSameCells | registers.c:155-158 | files that agree on every defined read in every mode are identical in storage |
| RegisterRuns.UserAndSystemReadAlike | registers.c:64-73 | replacing USR by SYS (or an unknown mode byte) anywhere in a run changes no value read |
| RegisterRuns.UserAccessIsASwitch | registers.c:160-181 | user-bank access equals switching to USR, accessing and switching back |
| RegisterTest.ComparePairs | registers_test.c:30-44 | the loops over j and k count no error iff every ordered pair of modes obeys the rule |
| RegisterTest.CheckSpsrPresence | registers_test.c:90-95 | no error iff USR and SYS have no SPSR |
| RegisterTest.RunTest | registers_test.c:25-110 | on any pointer table the test reports no error iff the table obeys every rule |
| RegisterTest.PassesTestMeans | registers_test.c:30-107 | the rules are equivalent to the sharing and separation conditions on all pairs of modes |
| RegisterTest.TestDecidesLayout | registers_test.c:30-107 | a table aliases as the architecture does iff it passes and three kinds of sharing the test never looks at are right |
| RegisterTest.LayoutTablePasses | registers_test.c:27-107 | the table of registers_create passes |
| RegisterTest.TestAcceptsASharedFiqBank | registers_test.c:45-59 | the test also passes when FIQ's r8 is the other modes' r8 |
| Memory.WordGuardSoundIff | README:32-33 | memory.c:67-69 -- the word bounds test admits only words inside the memory iff the size is at least 3 |
| Memory.ReverseUndoesHost | README:32-33 | util.h:39-41 -- a host-order word reversed is the word in the other order |
| Memory.ReadAfterWrite | README:32-33 | memory.c:67-102 -- a word written is read back, and words that do not overlap it are as before |
| Memory.WordIsSumOfBytes | README:32-33 | memory.c:57-75 -- a word or half-word is the sum of its bytes by weight, first byte highest iff the memory is big endian |
| Memory.MemoryData.ReadWord | README:32-33 | memory.c:67-75 -- the word in the memory's byte order whatever the host's, or failure outside |
| Memory.MemoryData.ReadHalf | README:32-33 | memory.c:57-65 -- the half-word in the memory's byte order whatever the host's, or failure outside |
| Memory.MemoryData.WriteWord | README:32-33 | memory.c:94-102 -- exactly the four bytes change, in the memory's byte order, or nothing outside |
| Memory.MemoryData.WriteHalf | README:32-33 | memory.c:84-92 -- exactly the two bytes change, in the memory's byte order, or nothing outside |
| Shifter.ImmediateShiftIsPrescribed | Examples/example2.s:6 | arm_data_processing.c:69-117 -- shifts by an immediate give the architecture's value and carry, with the encodings of 32 |
| Shifter.RegisterShiftIsPrescribed | README:45-46 | arm_data_processing.c:118-199 -- shifts by a register give the architecture's value and carry for every amount but LSR and ASR by 0 |
| Shifter.DecodeSoIsPrescribedIff | README:45-46 | arm_data_processing.c:57-200 -- decode_so gives the architecture's operand and carry iff it is not a right shift by a zero register (or the operands hide it) |
| Shifter.ValueIsPrescribedIff | README:45-46 | arm_data_processing.c:57-200 -- the operand's value alone is the architecture's iff it is not a right shift by a zero register, or the register is 0, or -1 under ASR |
| Shifter.RightByZeroFails | README:45-46 | arm_data_processing.c:154-158 -- lsr by a register holding 0 turns 1 into 0 |
| Alu.LogicalResultBit | README:45-46 | arm_data_processing.c:325-476 -- bit i of AND, EOR, TST, TEQ, ORR, MOV, BIC and MVN is the and, or, exclusive or, copy or complement of the bits i of the operands |
| Alu.ResultIsTrue | README:45-46 | arm_data_processing.c:325-476 -- the result of all sixteen operations is the manual's, assembled from those bits or exact modulo 2^32 |
| Alu.SimpleFlagsAreRight | README:45-46 | arm_data_processing.c:296-476 -- N and Z describe the result of all sixteen operations, logical ones take the shifter's carry and keep V, the 28 low bits of the CPSR survive |
| Alu.CarryRightIff | README:45-46 | arm_data_processing.c:274-294 -- the C computed is the architecture's iff the operation is not SBC or RSC with a borrow, where it is always set |
| Alu.OverflowRightIff | README:45-46 | arm_data_processing.c:279-289 -- the V computed is the architecture's iff an addition's second operand of the same sign is not between the first and the threshold of overflow, a carry meets neither 0 + 0 nor operands that cancel, and a subtraction with borrow does not come from a difference of exactly 2^31 |
| Alu.FlagsRightIff | README:45-46 | arm_data_processing.c:305-440 -- every arithmetic operation gives the exact result modulo 2^32, and C and V in the CPSR are right under exactly those conditions |
| Alu.FlagFailures | README:45-46 | arm_data_processing.c:279-400 -- 1 + 2 sets V, 2^31-1 + 1 clears it, SBC and RSC set V for 0 - (-2^31) - 1, and SBC of 1 from 0 with carry sets C |
| DataProcessing.CpsrsAgreeIff | README:45-46 | arm_data_processing.c:305-476 -- with the same operands the CPSR computed is the manual's, of the manual's result, iff its C and V are |
| DataProcessing.ResultSurvivesIff | README:45-46 | arm_data_processing.c:325-476 -- for each operation, when its result with a mask in place of the register is the result with the register |
| DataProcessing.TestFlagsIff | README:45-46 | arm_data_processing.c:418-440 -- for each of the four tests, when all its flags with a mask in place of the register are the manual's with the register |
| DataProcessing.InstructionIsPrescribedIff | README:45-46 | arm_data_processing.c:57-476 -- every data-processing instruction of the manual on any operand in any state: the whole state after it, the mode included, is the manual's iff the condition stated on its operands, carry and SPSR holds |
| DataProcessing.ReturnKeepsMode | README:37-38 | arm_data_processing.c:265-272 -- movs pc, lr in SVC leaves the mode SVC whatever mode the SPSR names |
| Alu.ComparisonDecidesOrder | Examples/example1.s:4-11 | arm_instruction.c:36-65 -- after CMP or SUBS EQ, NE, CS, CC, HI, LS, GE, LT, GT and LE decide the unsigned and signed order of the operands |
| Alu.SignDecidesConditions | README:53-55 | arm_instruction.c:36-47 -- after any operation MI and PL decide the sign of the manual's result, EQ and NE whether it is zero |
| Alu.ComparisonDecidesOverflow | README:53-55 | arm_instruction.c:48-51 -- after CMP or SUBS VS and VC decide whether the exact signed difference fits in 32 bits |
| Alu.LogicalConditions | README:53-55 | arm_instruction.c:40-51 -- after a bitwise operation CS and CC give the shifter's carry, VS and VC the V there was |
| Machine.StepNeverResets | README:53-55 | arm_instruction.c:106-113 -- no instruction returns the code of RESET, so arm_exception never acts after a step |
| Encoding.GroupFields | README:53-55 | arm_instruction.c:31-104 -- condition and bits 27 to 25 of an assembled word are those written |
| Encoding.MiddleFields | README:45-48 | arm_load_store.c:88-110 -- bits 24 to 20 are those written |
| Encoding.RegisterFields | README:45-48 | arm_load_store.c:88-110 -- the register fields, the opcode and the twelve low bits are those written |
| Encoding.RotatedImmediateFields | Examples/example4.s:4 | arm_data_processing.c:57-66 -- the immediate and its rotation are those written |
| Encoding.ShiftedByAmountFields | Examples/example2.s:6 | arm_data_processing.c:69-74 -- register, kind and amount of a shift are those written |
| Encoding.ShiftedByRegisterFields | README:45-46 | arm_data_processing.c:118-124 -- the two registers and the kind of a shift are those written |
| Encoding.ExtraTransferFields | README:48 | arm_load_store.c:73-80 -- the fields of an extra load or store are those written |
| Encoding.ListFields | README:48 | arm_load_store.c:376-573 -- a register is in the list of the word iff its bit is in the list written, and the other fields are those written |
| Encoding.Fields24 | README:50-51 | arm_branch_other.c:30-50 -- the fields of a branch or software interrupt are those written |
| Encoding.Disassembled | README:53-55 | arm_instruction.c:71-104 -- every word is assembled from its own fields |
| Assembled.RegistersAreNamed | registers.c:155-181 | a register number reads and writes the word of the architectural register the mode gives it |
| Assembled.PcIsNamed | README:37-38 | arm_core.c:62-75 -- with the next instruction at a word address the PC reads as that plus 4, in the current mode and in the user bank |
| Assembled.OperandIsComputedIff | Examples/example4.s:4 | arm_data_processing.c:57-200 -- for every operand as written decode_so gives the manual's value and carry iff it is not a right shift by a zero register (or the operands hide it) |
| Assembled.DataInstructionIsPrescribedIff | README:45-46 | arm_data_processing.c:57-476 -- every data-processing instruction as written: executing its word gives the manual's state for its fields iff the condition stated in the fields holds |
| Assembled.EveryDataWordIsAssembled | README:45-46 | arm_data_processing.c:205-263 -- and every data-processing word is written that way |
| Assembled.OffsetIsAsWritten | Examples/example4.s:8 | arm_load_store.c:39-71 -- the offset of a transfer is the number written, or the register shifted as the manual has it |
| Assembled.LoadTransfers | Examples/example4.s:8 | arm_load_store.c:206-291 -- LDR and LDRB in all forms: the word or byte at the base moved by the offset (the base without P), the PC without its low bits; the base moves unless P without W; code 5 outside memory |
| Assembled.StoreTransfers | Examples/example2.s:12 | arm_load_store.c:124-204 -- STR and STRB in all forms: the register or its low byte at that address and no other byte; the base moves unless P without W; code 5 outside memory |
| Assembled.ExtraTransfers | README:48 | arm_load_store.c:73-374 -- the extra transfers in all forms, as half-words |
| Assembled.StmStores | README:48 | arm_load_store.c:490-573 -- each listed register whose place is inside memory is stored there, four bytes a rank from the base, the current mode's or the user bank's |
| Assembled.StmMovesBase | README:48 | arm_load_store.c:551-573 -- STM changes no register but a base written back, by four bytes a listed register |
| Assembled.LdmLoads | Examples/example4.s:9 | arm_load_store.c:376-488 -- each listed register whose place is inside memory receives the word there |
| Assembled.BranchGoes | README:50-51 | arm_branch_other.c:30-39 -- executing B or BL at a goes to a + 8 and four times the signed field, r14 holding a + 4 if linked |
| Assembled.MrsReads | README:50-51 | arm_branch_other.c:51-57 -- MRS of either status register to any register, or NULL followed |
| Assembled.SwiInterrupts | Examples/example1.s:13 | arm_branch_other.c:41-49 -- swi 0x123456 leaves the simulator, any other number returns code 3 |
| Assembled.CoprocessorIsUndefined | README:50-51 | arm_branch_other.c:41-49 -- coprocessor instructions return code 2 and change nothing |
| Assembled.StepExecutes | README:53-55 | arm_instruction.c:71-113 -- a step at an aligned address executes the word there if its condition passes, with the PC moved and a cycle counted, or returns -1 |
| Core.ArmCore.constructor | README:37-38 | arm_core.c:38-49 -- a new core is a created register file over the memory, reset |
| Core.ArmCore.Fetch | README:37-38 | arm_core.c:129-139 -- reads the word at the PC, moves the PC on even when that fails, and counts a cycle |
| Core.ArmCore.DecodeSo | README:45-46 | arm_data_processing.c:57-200 -- the shifter operand of the current state |
| Core.ArmCore.UpdateFlags1 | README:45-46 | arm_data_processing.c:296-303 -- N and Z of the result, C the shifter's, V and the 28 low bits unchanged, set one bit at a time |
| Core.ArmCore.UpdateFlags2 | README:45-46 | arm_data_processing.c:305-313 -- C is the absence of a borrow, V the test on the difference |
| Core.ArmCore.UpdateFlags3 | README:45-46 | arm_data_processing.c:315-323 -- C is the carry out of 32 bits, V the test on the difference |
| Core.ArmCore.UpdateFlagsWithCarry | README:45-46 | arm_data_processing.c:370-412 -- the updates inside adc, sbc and rsc |
| Core.ArmCore.Operate | README:45-46 | arm_data_processing.c:325-476 -- one of the sixteen operations: result, flags, and SPSR to CPSR when the PC is the destination |
| Core.ArmCore.HandleRd15 | README:45-46 | arm_data_processing.c:265-272 -- the CPSR takes the SPSR's value iff the mode has one |
| Core.ArmCore.Branch | README:50-51 | arm_branch_other.c:30-39 -- link and jump by the sign-extended offset |
| Core.ArmCore.Miscellaneous | README:50-51 | arm_branch_other.c:51-57 -- a status register is copied, or NULL is followed |
| Core.ArmCore.Load | README:48 | arm_load_store.c:206-291 -- ldr, ldrb, ldrh: write-back even on abort, then the loaded value |
| Core.ArmCore.Store | README:48 | arm_load_store.c:124-204 -- str, strb, strh: the stored value, write-back even on abort |
| Core.ArmCore.LoadList | README:48 | arm_load_store.c:389-465 -- the loading loops of ldm, a failed load repeating the last value |
| Core.ArmCore.StoreList | README:48 | arm_load_store.c:501-550 -- the storing loops of stm |
| Core.ArmCore.LoadMultiple | README:48 | arm_load_store.c:376-488 -- ldm, with the return form that loads nothing |
| Core.ArmCore.StoreMultiple | README:48 | arm_load_store.c:490-573 -- stm with its write-back |
| Core.ArmCore.Exception | README:43 | arm_exception.c:33-48 -- only RESET changes anything |
| Core.ArmCore.ExecuteInstruction | README:53-55 | arm_instruction.c:71-104 -- fetch, condition and dispatch |
| Core.ArmCore.Step | README:53-55 | arm_instruction.c:106-113 -- the in-place step makes exactly the transition all theorems below are about |
| Reachable.StepKeeps | README:37-38 | arm_instruction.c:71-113 -- one step of any program in any mode keeps the mode, the private registers of every other mode, the memory's size and, without an SPSR, the 28 low bits of the CPSR |
| Reachable.CreatedIsReset | README:37-38 | arm_core.c:38-49 -- a new core is in SYS with the PC at 0, CPSR 0x1d3 and every other register 0 |
| Reachable.ExceptionIsReset | README:43 | arm_exception.c:33-48 -- RESET sets the CPSR and clears the PC and changes nothing else; other codes change nothing |
| Reachable.ResetClearsPc | README:43 | arm_exception.c:33-48 -- after a reset event, anywhere in a run, the PC is 0 |
| Reachable.RunsStayInSys | README:37-38 | arm_core.c:38-49 -- from reset, for every memory content, program and sequence of exceptions: mode SYS, every exception bank zero, CPSR mode field SVC |
| Reachable.StepCrashesIff | README:37-38 | arm_branch_other.c:51-57 -- a step follows NULL iff it executes an MRS of the SPSR (or a word taken for one, as msr spsr_f, r0), or an LDM with the PC and bit 22, in a mode without an SPSR |
| Single.BranchIsRelative | README:50-51 | arm_branch_other.c:30-39 -- a branch at a goes four times the signed field beyond a + 8, r14 holds a + 4 if linked, nothing else changes |
| Single.ScaledOffsetIsPrescribed | README:48 | arm_load_store.c:39-71 -- a scaled register offset is the shifter operand of the same fields, as the manual prescribes |
| Single.HalfOffsetRightIff | README:48 | arm_load_store.c:73-80 -- the offset of a half-word access is the manual's iff the register and the immediate reading agree |
| Single.HalfLoadRightIff | README:48 | arm_load_store.c:73-374 -- every LDRH, LDRSB and LDRSH: the whole outcome is the manual's iff the half-word at the program's address is the value the manual loads and the same base is written back |
| Single.SameAddressYieldsIff | README:48 | arm_load_store.c:206-291 -- at one address the half-word is the value of the manual's load iff no sign and no second byte is lost |
| Single.HalfAccessRightIff | README:48 | arm_load_store.c:73-374 -- STRH, LDRH, LDRSB and LDRSH that write the base back and do not load it: the outcome is the manual's iff the two readings of bit 22 agree and no sign is lost |
| Single.SignIsLost | README:48 | arm_load_store.c:206-291 -- ldrsh r0, [r1], #2 of a negative half-word leaves it without its sign |
| Single.HalfOffsetFails | README:48 | arm_load_store.c:73-80 -- ldrh r0, [r1, #2] with r2 = 0 takes the offset 0 where the manual has 2 |
| Single.AddressesArePrescribed | README:48 | arm_load_store.c:124-291 -- the address accessed and the base written back, for all settings of bits 24, 23 and 21 |
| Single.StoreEffect | README:48 | arm_load_store.c:124-204 -- a store aborts iff its bytes are not all in memory, else memory holds the narrowed register there and no other byte changes; the base is written back in either case |
| Single.LoadEffect | README:48 | arm_load_store.c:206-291 -- a load aborts iff its bytes are not all in memory, else the register receives the value there; the base is written back in either case and nothing else changes |
| Single.StoreThenLoad | README:48 | arm_load_store.c:124-374 -- executing a store, pre-indexed with write-back, and then the post-indexed load of the same decoded size and offset: the base returns and the value comes back, narrowed to the size |
| Multiple.StoreListStores | README:48 | arm_load_store.c:501-550 -- after the store loop every listed register whose place is inside memory is there |
| Multiple.StoreMultipleEffect | README:48 | arm_load_store.c:490-573 -- executing stm aborts iff some listed place is outside memory, moves the base by the count of the list and changes nothing else but memory |
| Multiple.StoreMultipleStores | README:48 | arm_load_store.c:490-573 -- executing stm leaves each listed register's value in its place if that is inside memory, even if another is not |
| Multiple.StoreMultipleFrame | README:48 | arm_load_store.c:490-573 -- stm changes no byte outside the listed places, aborted or not |
| Multiple.ReturnFormLoadsNothing | README:48 | arm_load_store.c:385-387 -- with bit 22 and the PC ldm copies the SPSR to the CPSR, loads nothing, moves no base and cannot abort |
| Multiple.LoadMultipleSucceedsIff | README:48 | arm_load_store.c:376-488 -- ldm aborts iff some listed place is outside memory; the return form succeeds iff there is an SPSR |
| Multiple.LoadMultipleLoads | Examples/example4.s:9 | arm_load_store.c:376-488 -- executing ldm gives each listed register the word from its place, or outside memory the last word read before it; the return form leaves it |
| Multiple.LoadMultipleFrame | README:48 | arm_load_store.c:376-488 -- executing ldm changes no other register and no memory |
| Multiple.SaveAndRestore | README:48 | arm_load_store.c:376-573 -- stm then ldm in the same mode from the same base restores every listed register, current or user bank, but a base that the load writes back; the return form restores none |
| Multiple.PushThenPopReverses | README:48 | arm_load_store.c:376-573 -- in all four stack disciplines push then pop returns the stack pointer and gives each register its mirror's value |
| Multiple.PushThenPopRestoresIff | README:48 | arm_load_store.c:424-466 -- push then pop restores the registers iff their values read the same in both directions |
| Multiple.PushThenPopOfTwoSwaps | README:48 | arm_load_store.c:424-466 -- stmdb r13!, {r0, r1} followed by ldmia r13!, {r0, r1} exchanges r0 and r1 |
| Layout.PlaceIsPrescribedIff | README:48 | arm_load_store.c:376-573 -- a listed register's word has the manual's address iff the base is word aligned and the mode ascends or the register is the middle one of the list |
| Layout.AbortsAsPrescribed | README:48 | arm_load_store.c:376-573 -- from an aligned base stm and ldm abort iff some address the manual gives is outside memory; the return form never does |
| Layout.StoredAsPrescribedIff | README:48 | arm_load_store.c:490-573 -- after stm from an aligned base every listed value is at the manual's address iff the mode ascends or the values read the same in both directions |
| Layout.LoadedAsPrescribedIff | README:48 | arm_load_store.c:376-488 -- after ldm from an aligned base every listed register holds the word at the manual's address iff the mode ascends or the words read the same in both directions, or, in the return form, iff it held it before |
| Layout.ReturnsAsPrescribedIff | README:48 | arm_load_store.c:385-387 -- the return form ends in the manual's state iff all addresses are in memory, the base is not written back, every listed register holds its word already and the SPSR names the current mode |
| Layout.ReturnFails | README:48 | arm_load_store.c:385-387 -- ldmia r13!, {r0, pc}^ in SVC never does what the manual says |
| Layout.UnalignedStoreFails | README:48 | arm_load_store.c:490-573 -- stmia r13, {r0, r1} from 65 does not put r0 at 64 |
| Layout.OneRegisterAsPrescribed | README:48 | arm_load_store.c:490-573 -- a list of one register is stored where the manual has it |
| Layout.TopOfPushIsTheHighest | README:48 | arm_load_store.c:490-573 -- after stmdb r13!, {r0, r1} the word at the new stack pointer, the manual's place of r0, is r1 |
| Layout.PushFailsToLayOut | README:48 | arm_load_store.c:490-573 -- r0 = 1 and r1 = 2 pushed from r13 = 64 are not where the manual has them |
| Misread.ControlIsExecutedAsTest | README:53-55 | arm_instruction.c:71-104 -- control instructions with bit 4 (BX, BLX, CLZ, BKPT) change nothing but the flags |
| Misread.BranchExchangeRightIff | README:50-51 | arm_instruction.c:71-104 -- BX leaves the PC; it is the manual's iff the next instruction is the target, T is right and no flag moves |
| Misread.ReturnDoesNotBranch | README:50-51 | arm_instruction.c:71-104 -- bx lr fails wherever r14 is not the next address |
| Misread.MsrRightIff | README:50-51 | arm_branch_other.c:51-57 -- MSR from a register jumps to the CPSR; it is the manual's iff that is the next address and the write changes nothing |
| Misread.MsrImmediateFails | README:45-46 | arm_instruction.c:71-104 -- msr cpsr_f, #0xF0000000 with r8 = 0 clears Z |
| Misread.MulRightIff | README:48 | arm_load_store.c:124-204 -- MUL is the manual's iff the product is the destination less its operand numbers and memory there holds the half-word stored |
| Misread.SwapLoadsNothing | README:48 | arm_load_store.c:124-204 -- SWP changes no register |
| Misread.DoublesStoreAHalf | README:48 | arm_load_store.c:124-204 -- LDRD and STRD store one half-word and move the base only |
| Misread.UndefinedIsExecuted | README:53-55 | arm_instruction.c:71-104 -- a register offset with bit 4 is executed as a transfer |
| Misread.UnconditionalIsSkipped | README:53-55 | arm_instruction.c:31-69 -- with condition 15 a step only fetches |
| Countdown.StepBl | Examples/example1.s:10 | bl puts the address of bne in r14 and jumps to decr |
| Countdown.StepSubs | Examples/example1.s:4 | subs decrements r0 modulo 2^32 and sets all four flags |
| Countdown.StepReturn | Examples/example1.s:5 | mov pc, lr returns and keeps the flags |
| Countdown.StepBne | Examples/example1.s:11 | bne goes back to loop iff Z is clear |
| Countdown.OneIteration | Examples/example1.s:9-11 | one iteration is four steps |
| Countdown.LoopUnrolls | Examples/example1.s:9-11 | the exact state after every number of iterations |
| Countdown.CountdownReachesEnd | Examples/example1.s:3-13 | from loop with any r0 = n, mode and contents: end after exactly n iterations (2^32 from 0), r0 zero, Z set, nothing else changed but r14, flags and PC; then exit |
| Countdown.CountdownNotSooner | Examples/example1.s:9-11 | after fewer iterations the machine is at loop with r0 = n - m, not zero |
| Countdown.EndNotReachedBefore | Examples/example1.s:9-13 | after every number of steps below 4 * Iterations(r0), a whole number of iterations or not, the PC is not at end |
| Countdown.ProgramExits | Examples/example1.s:7-13 | from main the program exits at the 22nd step |
| InsertionSort.ScanOfOrdered | Examples/insertion_sort.c:12-19 | on an ordered prefix the inner loop exchanges nothing |
| InsertionSort.ScanIsEarlyScan | Examples/insertion_sort.c:12-19 | once a comparison does not exchange, no later one in that pass does |
| InsertionSort.SortIsEarlySort | Examples/insertion_sort.c:10-20 | after every pass the array is that of the sort that stops at the first ordered pair |
| InsertionSort.SortIsStable | Examples/insertion_sort.c:10-20 | the result is ordered, a permutation, and keeps equal keys in their original order |
| InsertionSort.SwapsAreInversions | Examples/insertion_sort.c:10-20 | the exchanges of the first n passes number the inversions of the first n elements |
| InsertionSort.InnerLoop | Examples/insertion_sort.c:12-19 | the inner loop in place, with its exchanges and comparisons |
| InsertionSort.Sort | Examples/insertion_sort.c:10-20 | the program in place: sorted, a permutation, one exchange per inversion, n(n-1)/2 comparisons |

## Left out

- The gdb protocol, its scanner, the sockets and the interrupt thread: only the calls they make into the core (`arm_step`, `arm_exception`) are modelled; a debugger's own writes to registers and memory are not events of `Reachable.Run`.
- Tracing, debug messages, cycle display and `arm_print_state`: output only.
- `malloc`, `free`, `registers_destroy`, `memory_destroy`: creation is a constructor and memory starts with arbitrary contents.
- Register numbers above 17, which the C accessors would carry into the next row of the table: no caller in the core passes one.
- Memories of size 0, 1 and 2: `Memory.WordGuardSoundIff` shows that the bounds test is not sound for them; the simulator always creates 0x20000 bytes.
- Core.ArmCore.Miscellaneous: where C would follow a NULL pointer the method returns `Crash` and stops; what the host does then is not modelled. The same holds of Core.ArmCore.LoadMultiple.
- RegisterTest.RunTest: the error messages are a count, and tables with a NULL entry where the test reads without checking are excluded.
- Single.HalfAccessRightIff: a store without write-back, which may find equal memory at the two addresses, is not decided; loads without it are in `Single.HalfLoadRightIff`.
- Layout.StoredAsPrescribedIff: from a base that is not aligned every address differs from the manual's (`Layout.PlaceIsPrescribedIff`), but the words found at the manual's may still be equal by coincidence; that is not decided.
- Layout.AbortsAsPrescribed: with a base that is not aligned the program's last word can end outside memory where the manual's ends inside; only aligned bases are decided.
- Layout.LoadedAsPrescribedIff: bases that are not aligned, as for stores; and a load that writes back to a base in its own list, where the program's write-back replaces the loaded word, is left to `Multiple.LoadMultipleBase`.
- Misread: long multiplies, MLA, the DSP multiplies, MRS from and MSR to the SPSR have no lemma of their own.
- Multiple.PushThenPopReverses: the stack pointer is not in the register list and is not r15, and the memory and the stack pointer are as the push left them when the pop starts.
- Countdown.CountdownReachesEnd: the program lies at a word address below the last 28 bytes of the address space.
- Examples/example2.s, example3.s, example4.s and exampleCustom.s: straight-line programs with no claim beyond their single steps.
