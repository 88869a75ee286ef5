# CoralNPU simulator: a verified model

This project models the parts of the CoralNPU simulator and of its instruction-sequence fuzzer whose
correctness is hardest to see by reading, and proves what they are for. Everything is stated for all
inputs of the modelled operation; loops of the original are loops here, objects it updates in place are
classes or arrays, and expression-level code is functions.

- **SIMD lanes** (`LaneArith`, `VectorLanes`, `LaneLayout`, `LaneRoundTrips`, `LanePermutations`): the
  arithmetic helpers for every lane width, the generic element loop with its source getters for every lane
  count, and the laws that connect instructions: narrowing undoes widening, zip and split are inverse,
  slides compose and undo each other.
- **Convolutions** (`Convolution`, `Depthwise`): the outer-product convolution and the depthwise
  convolution as in-place accumulation loops, and the proof that the interleaves of the accumulator, of
  the accumulator read-out and of the quad narrowing cancel.
- **Generated RV32 code** (`Rv32`, `Sandbox`, `SandboxedAccess`, `TrapHandler`, `XorshiftStep`,
  `GeneratedLoops`, `IsgEngine`, `GeneratedProgram`): a small interpreter, the engine that appends
  instructions to an assembly buffer, and what every emitted sequence does from every machine state.
- **Self-checking binaries** (`Encodings`, `Epilogue`, `EpilogueRuns`, `Mutation`): raw encodings and their
  decoder, the finalizer that overwrites a binary's padding with checks, the run of the result, and the
  mutation of a binary.
- **Memory accesses** (`MemoryRegions`, `VectorAccess`, `RenodeMemory`, `VectorMemory`): the permission
  regions, the vector access validation with its range shortcut, block-split memory against a flat view,
  and vector store/load round trips.
- **bfloat16** (`Bf16`, `Bf16Rounding`, `Bf16Vectors`): both conversions on bit patterns, their meaning on
  real values in all five rounding modes (section 4.3 of IEEE 754-2008), and the masked vector loops
  (sections 3.7 and 5.4 of the RISC-V V extension 1.0).
- **Hazard statistics** (`ExecutionTracker`): the maps updated per instruction against a reading of the
  whole trace.

`Words` holds 32-bit words, powers of two, bitwise operators and division into blocks; `Digits` numbers by
their binary digits and little-endian bytes; `Wrappers` optional values; `Masks` the mask bits of the vector
instructions.

Where the code and a natural reading of it differ, the model follows the code:

- The range check computes the length of the checked range in 32 bits, so a range that covers the whole
  address space is checked with length zero. `VectorAccess.WholeSpaceIsAccepted` gives an accepted strided
  load with a refused element under the default regions; the contracts of the strided methods say exactly
  when the shortcut agrees with the element checks (`CutToZero`).
- The masking sequence keeps an access inside its region only for sizes up to the region's length minus
  the reserved log area: `SandboxedAccess.SandboxExact`.
- The emitted store computes its address in t6 before it copies the stored register, so storing t6 stores
  the address unless t6 is the unchanged base: `SandboxedAccess.StoreKeepsValueExactly`.
- The trap handler parks mscratch in mtval and does not restore mtval; mepc is redirected on purpose.
- A child of a mutation fills the 8 KB exactly when the mutable part starts at a word boundary:
  `Mutation.ChildEndsInMpause`.

## Model

| member | source | states |
|---|---|---|
| `LaneArith.VAddsSaturates` | sim/coralnpu_vector_instructions.cc:482-494 | saturating add by overflow test equals clamping the exact sum, for every width |
| `LaneArith.VSubsSaturates` | sim/coralnpu_vector_instructions.cc:527-539 | saturating subtract equals clamping the exact difference, for every width |
| `LaneArith.VAddsuSaturates` | sim/coralnpu_vector_instructions.cc:507-514 | unsigned saturating add equals clamping the exact sum |
| `LaneArith.VShiftMeetsSpec` | sim/coralnpu_vector_instructions.cc:844-901 | the shift helper equals clamp(floor((v + rounding) / 2^s)) for right and clamp(v * 2^-s) for left shifts, signed and unsigned, for every width and every amount whose negation does not overflow |
| `LaneArith.VSransIsClampedShift` | sim/coralnpu_vector_instructions.cc:993-1010 | the narrowing shift is the rounded shift by the amount modulo the source width, clamped to the destination type |
| `LaneArith.ShiftRightRounds` | sim/coralnpu_vector_instructions.cc:999-1001 | the reference shift by s gives the floor of v / 2^s, and with rounding the integer nearest to it, upward from the middle, and nothing else |
| `LaneArith.ClampIsNearest` | sim/coralnpu_vector_instructions.cc:1003-1008 | clamping gives a value of the type with no other value of the type between it and the exact one |
| `LaneArith.CastIsCongruent` | sim/coralnpu_vector_instructions.cc:1009-1009 | a conversion gives the one value of the type that differs by a multiple of 2^bits |
| `LaneArith.NarrowedSumSaturates` | sim/coralnpu_vector_instructions.cc:563-569 | narrowing a widened sum by 0 is the saturating add |
| `LaneArith.NarrowedSumHalves` | sim/coralnpu_vector_instructions.cc:663-668 | narrowing a widened sum by 1 is the halving add with the same rounding |
| `LaneArith.NarrowedProductIsHighHalf` | sim/coralnpu_vector_instructions.cc:1070-1092 | narrowing a widened product by the lane width is the high-half multiplication with the same rounding |
| `LaneArith.VDmulhSaturatesOnce` | sim/coralnpu_vector_instructions.cc:1110-1128 | the rounded quotient leaves the lane's range exactly for min * min, and the result is its clamp, in every rounding mode |
| `LaneArith.VDmulhRounds` | sim/coralnpu_vector_instructions.cc:1110-1128 | the result in terms of 2ab alone: the clamp of floor(2ab / 2^n) without rounding and of the nearest integer, ties upward, with rounding, except that with round_neg a negative product gives the clamp of floor((2ab - 2^(n-1)) / 2^n) |
| `VectorLanes.BinaryVectorOp` | sim/coralnpu_vector_instructions.cc:151-248 | the triple loop over strip-mined operations, elements and destination registers writes exactly the registers that the lane-wise specification gives, for operations that read the destination's old lane too |
| `VectorLanes.PlainOperation` | sim/coralnpu_vector_instructions.cc:151-158 | an operation that ignores the old lanes leaves the registers that its sources determine, whatever was in the destination |
| `LaneLayout.WideningLane` | sim/coralnpu_vector_instructions.cc:198-248 | the widening layout: result lanes of even elements in the first, of odd elements in the second register of each pair |
| `LaneLayout.NarrowingLane` | sim/coralnpu_vector_instructions.cc:969-991 | the narrowing layout: element e reads the register that the {0, 1} or {0, 2, 1, 3} order names |
| `LaneRoundTrips.NarrowingUndoesWidening` | sim/coralnpu_vector_instructions.cc:198-248 | narrowing a widened group gives, element by element and in order, the narrowed widening of the sources, strip-mined or not |
| `LaneRoundTrips.NarrowingUndoesAccumulation` | sim/coralnpu_vector_instructions.cc:589-598 | the same with a widening accumulation of a vector or a scalar in between |
| `LaneRoundTrips.QuadNarrowingUndoesStackedWidening` | sim/coralnpu_vector_instructions.cc:969-1019 | two stacked widenings, each with a vector or a scalar second operand, are undone by the quad narrowing with its {0, 2, 1, 3} register order |
| `LaneRoundTrips.AccumulatingIsComposed` | sim/coralnpu_vector_instructions.cc:196-248 | an operation that adds to its destination leaves the registers of the adding operation behind the one that does not |
| `LaneRoundTrips.DestinationIsAdded` | sim/coralnpu_vector_instructions.cc:461-474 | VAdd3 is two VAdds, and VMacc a VAdd behind a VMul, on whole register groups |
| `LaneRoundTrips.NarrowedAddwIsSaturatingAdd` | sim/coralnpu_vector_instructions.cc:482-570 | VSrans by 0 after VAddw is VAdds/VAddsu on whole register groups |
| `LaneRoundTrips.NarrowedAddwIsHalvingAdd` | sim/coralnpu_vector_instructions.cc:563-676 | VSrans by 1 after VAddw is VHadd on whole register groups |
| `LaneRoundTrips.NarrowedMulwIsHighHalf` | sim/coralnpu_vector_instructions.cc:1070-1100 | VSrans by the lane width after VMulw is VMulh on whole register groups |
| `LanePermutations.ZipElement` | sim/coralnpu_vector_instructions.cc:1425-1453 | element k of the zipped pair is element k / 2 of the source that k's parity names, where a scalar second source repeats |
| `LanePermutations.SplitElement` | sim/coralnpu_vector_instructions.cc:1337-1421 | element k of the split is the even or odd element at the matching place of the concatenated sources, where a scalar second source repeats |
| `LanePermutations.SplitUndoesZip` | sim/coralnpu_vector_instructions.cc:1337-1453 | splitting a zipped pair of groups gives the pair back, for every even lane count and both strip-mine settings |
| `LanePermutations.ZipUndoesSplit` | sim/coralnpu_vector_instructions.cc:1337-1453 | zipping a split pair gives the pair back |
| `LanePermutations.SlideElements` | sim/coralnpu_vector_instructions.cc:1174-1318 | horizontal slides by i are the windows at offsets i and 4N - i of the two concatenated groups |
| `LanePermutations.SlideNextComposes` | sim/coralnpu_vector_instructions.cc:1174-1245 | sliding next by i and then by j is sliding by i + j |
| `LanePermutations.SlidePreviousUndoesNext` | sim/coralnpu_vector_instructions.cc:1174-1318 | on three consecutive groups, sliding previous undoes sliding next |
| `LanePermutations.VerticalWindows` | sim/coralnpu_vector_instructions.cc:1174-1305 | vertical slides are windows over matching registers of the two groups |
| `LanePermutations.VerticalPreviousUndoesNext` | sim/coralnpu_vector_instructions.cc:1174-1305 | the same undoing for vertical slides |
| `Convolution.CellOfEntry` | sim/coralnpu_vector_convolution_instructions.cc:107-122 | every accumulator cell belongs to one product entry: the map of entries to cells is onto |
| `Convolution.EntryOfCell` | sim/coralnpu_vector_convolution_instructions.cc:107-122 | the map's inverse on entries: with the row above, a bijection of the 8x8 grid |
| `Convolution.VConv` | sim/coralnpu_vector_convolution_instructions.cc:47-134 | a malformed command traps and changes nothing; otherwise the nested loops add to the cell of every entry (i, w) the sum over all steps and bytes of the biased products, modulo 2^32, and nothing else |
| `Convolution.FactorsAreCasts` | sim/coralnpu_vector_convolution_instructions.cc:89-113 | biases are nine-bit two's complement, and a data byte is read in two's complement exactly where its command says it is signed |
| `Convolution.ConvSumFromBytes` | sim/coralnpu_vector_convolution_instructions.cc:104-122 | each entry from the raw bytes: over steps start to stop and four bytes each, the products of narrow byte and wide byte, each with its own sign flag and its own bias |
| `Convolution.AccumulatesDeterministic` | sim/coralnpu_vector_convolution_instructions.cc:107-130 | that statement determines the whole accumulator |
| `Convolution.ConvSumFits` | sim/coralnpu_vector_convolution_instructions.cc:104-122 | the sum of a whole convolution does not overflow 32 bits |
| `Convolution.VcGet` | sim/coralnpu_vector_memory_instructions.cc:334-348 | the read-out copies the accumulator row by row into registers and clears it |
| `Convolution.ConvolutionInRowMajorOrder` | sim/coralnpu_vector_convolution_instructions.cc:88-130 | convolving into a zero accumulator, reading out and quad narrowing either half yields row-major entries: each the rounded, shifted, clamped sum of its products |
| `Depthwise.SelectedDistinct` | sim/coralnpu_vector_convolution_instructions.cc:155-216 | the three selected source registers are distinct and below nine for every regbase |
| `Depthwise.SelectionTable` | sim/coralnpu_vector_convolution_instructions.cc:144-176 | which three registers each of the sixteen register bases selects, in order |
| `Depthwise.Gather` | sim/coralnpu_vector_convolution_instructions.cc:144-253 | the copied bytes are the dense registers, the window around, or the window forward, as the sparsity says |
| `Depthwise.DwCellsArePlacement` | sim/coralnpu_vector_convolution_instructions.cc:226-253 | the interleaved accumulator index places every element in its own cell |
| `Depthwise.VDwconv` | sim/coralnpu_vector_convolution_instructions.cc:138-255 | for sparsity 0, 1 and 2 and every regbase, every element's cell grows by the sum of its three biased products, and the written registers are the accumulator |
| `Depthwise.DwSumFromBytes` | sim/coralnpu_vector_convolution_instructions.cc:144-243 | what each lane gains, from the raw bytes: three products of the activation byte that register base and sparsity name and the weight byte, each with its own sign flag and bias |
| `Depthwise.DepthwiseInElementOrder` | sim/coralnpu_vector_convolution_instructions.cc:226-253 | quad narrowing of the written registers returns the sums in element order |
| `MemoryRegions.RegionTable.AddMemoryRegion` | sim/coralnpu_v2_state.h:105-110 | an appended region decides about exactly the accesses that no earlier region contains; every other decision stays as it was |
| `MemoryRegions.AppendedRegion` | sim/coralnpu_v2_state.cc:66-80 | the same for any table: earlier regions keep their say |
| `MemoryRegions.RegionTable.Configure` | sim/coralnpu_v2_state.cc:88-94 | the configured regions end up in the table in their order |
| `MemoryRegions.RegionTable.Check` | sim/coralnpu_v2_state.cc:66-80 | the loop with early return decides by the first region that contains the access |
| `MemoryRegions.FirstRegionDecides` | sim/coralnpu_v2_state.cc:66-80 | an access is granted iff some region contains it, carries the permission and is the first that contains it |
| `MemoryRegions.IncludesIsMasked` | sim/coralnpu_v2_state.cc:76-76 | a region carries a permission iff masking its bits with the asked ones leaves the asked ones, for read 1, write 2 and execute 4 |
| `MemoryRegions.DisjointPermission` | sim/coralnpu_v2_state.cc:66-80 | for disjoint regions a nonempty access is granted iff some region contains it and carries the permission |
| `MemoryRegions.DefaultPermissions` | sim/memory_config.h:30-41 | under the default regions: executing exactly inside [0, 0x2000), writing exactly inside [0x10000, 0x18000) or [0x20000000, 0x20400000), reading exactly inside one of the three |
| `Sandbox.UpperLower` | sim/isg/isg_engine.cc:98-106 | the upper and lower immediates rebuild every 32-bit constant |
| `Sandbox.ComputeMasks` | sim/isg/isg_engine.cc:660-702 | the mask computation leaves the masked address in t6 and changes no other register outside its scratch set |
| `SandboxedAccess.MaskSequence` | sim/isg/isg_engine.cc:644-707 | for every state and size: t6 becomes the masked address, every other register is restored, and memory changes only in the 16 bytes below the stack pointer |
| `SandboxedAccess.MaskedAddressSandboxed` | sim/isg/isg_engine.cc:648-703 | the masked address and its access stay in one writable region, clear of the log area, on the side bit 29 chose |
| `SandboxedAccess.SandboxExact` | sim/isg/isg_engine.cc:648-703 | every address is sandboxed exactly when the size leaves room beside the log area |
| `SandboxedAccess.SandboxedIsKept` | sim/isg/isg_engine.cc:648-703 | an access that is sandboxed already keeps its address, for every size |
| `SandboxedAccess.SandboxedIsPermitted` | sim/memory_config.h:30-41 | a sandboxed access may be read and written under the default regions |
| `SandboxedAccess.SandboxedLoad` | sim/isg/isg_engine.cc:768-784 | the whole machine behind the emitted load: one permitted, sandboxed word in the destination, t6 and one scratch register left over, the save area written, nothing else changed |
| `SandboxedAccess.LoadFromSandbox` | sim/isg/isg_engine.cc:768-784 | a load whose address rs1 + imm is sandboxed as it is loads the word at exactly that address; only the destination, t6 and, for base t6, t1 change, and memory only in the save area |
| `SandboxedAccess.SandboxedStore` | sim/isg/isg_engine.cc:785-803 | the whole machine behind the emitted store: one permitted, sandboxed word and the save area written, t4, t6 and one scratch register left over, nothing else changed |
| `SandboxedAccess.StoreToSandbox` | sim/isg/isg_engine.cc:785-803 | a store of any register but t6 whose address is sandboxed as it is puts the register at exactly that address; only t4, t6, one scratch register and the save area change besides |
| `SandboxedAccess.StoreKeepsValueExactly` | sim/isg/isg_engine.cc:785-803 | the stored value is the register's own exactly when the register is not t6, or is the unchanged base |
| `TrapHandler.HandlerReturns` | sim/isg/isg_engine.cc:301-330 | for every cause but 3 and every state, the handler logs six values at 0x10000, restores every x register and mscratch, and continues at 0x1FFC |
| `TrapHandler.LogReads` | sim/isg/isg_engine.cc:302-315 | the log reads back t0, t1, t2, mcause, mepc and mscratch at their six words |
| `TrapHandler.LogFrame` | sim/isg/isg_engine.cc:302-315 | the handler writes no other byte of memory |
| `TrapHandler.HandlerStopsOnBreakpoint` | sim/isg/isg_engine.cc:315-322 | cause 3 stops at the handler's own breakpoint with the log written |
| `GeneratedLoops.LiLoads` | sim/isg/isg_engine.cc:98-106 | the engine's constant load sets its register to every 32-bit value |
| `GeneratedLoops.HazardLoop` | sim/isg/hazard_generator.cc:60-73 | the countdown ends behind itself with t0 = 0 for every start value |
| `GeneratedLoops.ControlHazardTerminates` | sim/isg/hazard_generator.cc:57-74 | the emitted hazard ends at beq_pc + 4 * dist + 12 with t0 = t1 = 0 and nothing else changed, for every encodable distance |
| `XorshiftStep.XorshiftInjective` | sim/isg/isg_engine.cc:342-347 | the generator step is injective: different words have different successors |
| `XorshiftStep.XorshiftKeepsNonzero` | sim/isg/isg_engine.cc:342-347 | so it never turns a nonzero word into zero |
| `GeneratedLoops.SeedsDiffer` | sim/isg/isg_engine.cc:332-350 | different seeds leave different words at every place of the filled memory |
| `GeneratedLoops.FillTerminates` | sim/isg/isg_engine.cc:332-350 | the fill loop writes each word of [0x10000, 0x18000) with its own nonzero element of the stream, and changes only its four registers |
| `IsgEngine.Engine.EmitInstruction` | sim/isg/isg_engine.cc:199-236 | a scalar instruction is appended to the listing |
| `IsgEngine.Engine.CurrentPc` | sim/isg/isg_engine.cc:246-263 | the walk over the listing returns four times the number of words emitted so far |
| `IsgEngine.Engine.EmitLi` | sim/isg/isg_engine.cc:98-106 | emits the constant load |
| `IsgEngine.Engine.EmitDynamicMask` | sim/isg/isg_engine.cc:644-707 | emits the masking sequence, or nothing when sandboxing is off |
| `IsgEngine.Engine.EmitLoad` | sim/isg/isg_engine.cc:768-784 | emits the load, masked when sandboxing is on |
| `IsgEngine.Engine.EmitStore` | sim/isg/isg_engine.cc:785-803 | emits the store with a scratch register that differs from both operands |
| `IsgEngine.PlainLoad` | sim/isg/isg_engine.cc:768-784 | with sandboxing off the emitted load reads the word at rs1 + imm and writes no memory |
| `IsgEngine.PlainStore` | sim/isg/isg_engine.cc:785-803 | with sandboxing off the emitted store writes the register, or for t6 the address, at rs1 + imm and nothing else |
| `IsgEngine.Engine.EmitTrapHandler` | sim/isg/isg_engine.cc:301-330 | the absolute branch targets computed from the running pc are the handler's own labels |
| `IsgEngine.Engine.EmitControlHazard` | sim/isg/hazard_generator.cc:57-74 | emits the countdown with both branch targets from the running pc |
| `IsgEngine.Engine.EmitFillLoop` | sim/isg/isg_engine.cc:339-350 | emits the fill loop that branches back to its label |
| `IsgEngine.Engine.Build` | sim/isg/isg_engine.cc:265-289 | the listing is extended, padded to the last word of 8 KB and ended there with mpause |
| `IsgEngine.DataDecodes` | sim/isg/isg_engine.cc:281-281 | the final data word is executed as mpause exactly because it decodes to it |
| `GeneratedProgram.EmitPreambleStart` | sim/isg/isg_engine.cc:291-350 | the preamble's first part is the handler, the trap vector, the loop arguments and the fill loop, with a zero seed replaced by one |
| `GeneratedProgram.PreambleFillsMemory` | sim/isg/isg_engine.cc:300-350 | from reset, every preamble fills the data memory with its nonzero stream |
| `GeneratedProgram.FilledWords` | sim/isg/isg_engine.cc:332-350 | the first filled word is the seed and each further one the generator step of the word in front of it |
| `GeneratedProgram.TrapEndsAtMpause` | sim/isg/isg_engine.cc:265-331 | wherever a finished program traps, for every cause but 3, it comes to rest at the final mpause with all x registers and mscratch as at the trap |
| `GeneratedProgram.PaddingEndsAtMpause` | sim/isg/isg_engine.cc:265-281 | a body of at most 8188 bytes that falls through its end comes to rest at the same mpause |
| `GeneratedProgram.EmittedLoadRuns` | sim/isg/isg_engine.cc:768-784 | running a finished program over an emitted load, in any state, reads one word that the default regions permit and goes on behind it with only the named changes |
| `GeneratedProgram.EmittedStoreRuns` | sim/isg/isg_engine.cc:785-803 | the same for an emitted store: outside the stored word and the save area no byte of memory changes |
| `Encodings.OrLui` | sim/orchestrator.cc:65-65 | or-ing the fields gives the U-format word |
| `Encodings.OrAddi` | sim/orchestrator.cc:67-68 | or-ing the fields gives the I-format word |
| `Encodings.OrBeq` | sim/orchestrator.cc:70-76 | or-ing the scattered offset bits and the registers gives the B-format word |
| `Encodings.OrFmv` | sim/orchestrator.cc:94-95 | or-ing the fields gives the register move |
| `Encodings.OrVmv` | sim/orchestrator.cc:143-144 | or-ing the fields gives the vector move |
| `Encodings.DecodeUndoesEncode` | sim/orchestrator.cc:64-118 | decoding undoes encoding for every form used, for all registers, immediates and even offsets |
| `Encodings.EncodeUndoesDecode` | sim/orchestrator.cc:64-118 | every word that the decoder accepts is the encoding of what it decodes to, so it accepts no others |
| `Encodings.EncodingFields` | sim/orchestrator.cc:64-118 | opcode, register, function and immediate fields of every form are where the RISC-V formats put them |
| `Epilogue.FindNopStart` | sim/orchestrator.cc:17-31 | finds the start of the trailing run of nop and mpause words |
| `Epilogue.PaddingDecodes` | sim/orchestrator.cc:22-27 | the words taken for padding are exactly those that decode to a nop or an mpause |
| `Epilogue.EmitInst` | sim/orchestrator.cc:34-42 | writes a word little-endian where it fits, and otherwise nothing |
| `Epilogue.BlockDecodes` | sim/orchestrator.cc:44-165 | the raw words of every block decode to its instructions |
| `Epilogue.EmitIsFitting` | sim/orchestrator.cc:59-61 | no block is written partially: exactly the words of the checks that fit are placed |
| `Epilogue.AssertX` | sim/orchestrator.cc:44-80 | the X-register loop writes the blocks of x1 to x29 until one does not fit |
| `Epilogue.AssertF` | sim/orchestrator.cc:82-118 | the same for the F registers |
| `Epilogue.AssertV` | sim/orchestrator.cc:120-166 | the same for V registers with a whole first element |
| `Epilogue.ChecksAreRecorded` | sim/orchestrator.cc:44-132 | there is a check of a register with a golden value iff the terminal state records it: x1 to x29, all F registers, and V registers with a whole first element, read little-endian |
| `Epilogue.ChecksInOrder` | sim/orchestrator.cc:44-132 | X checks before F checks before V checks, each in ascending order, so each register once |
| `Epilogue.Finalize` | sim/orchestrator.cc:14-173 | the three loops and the final mpause are the writing of all checks in one list |
| `EpilogueRuns.GoldenRebuilt` | sim/orchestrator.cc:55-68 | the lui/addi pair rebuilds every golden value |
| `EpilogueRuns.NopStartIsPadding` | sim/orchestrator.cc:17-31 | only nop and mpause words are overwritten, and the word in front is neither |
| `EpilogueRuns.PrefixUnchanged` | sim/orchestrator.cc:33-42 | the length and all bytes in front of the padding are unchanged |
| `EpilogueRuns.FinalizedCode` | sim/orchestrator.cc:33-171 | the finalized program holds the written blocks at the padding's start and an mpause behind them where there is room |
| `EpilogueRuns.BlocksRun` | sim/orchestrator.cc:44-166 | running the blocks ends behind them or at the ebreak of the first mismatch, clobbering only x30 and x31 |
| `EpilogueRuns.EpilogueDecides` | sim/orchestrator.cc:14-173 | the finalized program comes to rest behind the blocks iff every register with a written block holds its golden value, otherwise at the ebreak of the first that does not, and it rests nowhere else |
| `EpilogueRuns.FittingIsGreatest` | sim/orchestrator.cc:59-61 | the written blocks fit and one more would not |
| `EpilogueRuns.RecordedStateDecides` | sim/orchestrator.cc:14-173 | where all blocks fit: the one rest is behind the last block iff x1 to x29, the F registers and the first V elements are the recorded ones wherever one is recorded; only x30 and x31 are clobbered |
| `Mutation.DropSome` | sim/orchestrator.cc:273-280 | a word survives exactly when its draw is not below five in a hundred |
| `Mutation.InsertSome` | sim/orchestrator.cc:296-306 | each injected word with a draw below ten in a hundred is inserted at its drawn place |
| `Mutation.InsertAllMixes` | sim/orchestrator.cc:296-306 | insertion keeps the kept words in order and adds exactly the chosen ones as a multiset |
| `Mutation.KeptSubsequence` | sim/orchestrator.cc:273-280 | the kept words are an in-order subsequence of the parent's |
| `Mutation.KeptIsSelection` | sim/orchestrator.cc:273-280 | the embedded places are exactly those whose draws are not below five in a hundred |
| `Mutation.NothingInserted` | sim/orchestrator.cc:297-299 | draws of ten in a hundred or more insert nothing |
| `Mutation.EverythingInserted` | sim/orchestrator.cc:297-306 | draws below ten in a hundred insert every word |
| `Mutation.WordsRead` | sim/orchestrator.cc:265-313 | serialized words read back |
| `Mutation.Mutate` | sim/orchestrator.cc:257-336 | for every stream of draws: the parent when the program would not fit, otherwise a child with the same preamble, the mixed words, the right bounds and the padding |
| `Mutation.ChildEndsInMpause` | sim/orchestrator.cc:315-335 | a child ends in mpause and has 8192 bytes exactly when its mutable part is word-aligned |
| `Mutation.ChildKeepsOrder` | sim/orchestrator.cc:273-306 | the kept words are an in-order subsequence of the parent's and of the child's words |
| `VectorAccess.GetIndexValue` | sim/coralnpu_v2_instructions.cc:205-221 | the or-ed bytes of one register are the little-endian value in the flat index vector, across registers |
| `VectorAccess.FieldAddressInOneSum` | sim/coralnpu_v2_instructions.cc:159-221 | a field is at base + i * stride + f * width, or at base + index + f * width, reduced modulo 2^32 once |
| `VectorAccess.RangeIsSound` | sim/coralnpu_v2_instructions.cc:126-155 | what the range check accepts, every element and field check accepts, for any base, stride, size and mask, unless the range is the whole space |
| `VectorAccess.ShortRangeIsExact` | sim/coralnpu_v2_instructions.cc:146-154 | a range shorter than the address space is never cut |
| `VectorAccess.CutExactly` | sim/coralnpu_v2_instructions.cc:126-155 | the cut in numbers: upward the range starts at 0 and ends at 2^32, downward the last element is at 0 and the first ends at 2^32 |
| `VectorAccess.WholeSpaceIsAccepted` | sim/coralnpu_v2_instructions.cc:153-154 | under the default regions a strided load of four 32-bit elements over the whole address space is accepted on an empty check although an element is refused |
| `VectorAccess.VectorUnit.CheckVectorAccess` | sim/coralnpu_v2_instructions.cc:107-121 | a refused access adds one trap with its address and the fault of its kind |
| `VectorAccess.VectorUnit.ValidateElement` | sim/coralnpu_v2_instructions.cc:496-507 | the field loop accepts iff all fields are permitted and otherwise traps once at the lowest refused field |
| `VectorAccess.VectorUnit.ValidateVectorAccess` | sim/coralnpu_v2_instructions.cc:159-177 | the walk accepts iff every active element's fields are permitted and otherwise traps once at the first refused one |
| `VectorAccess.VectorUnit.ValidateStridedVectorAccess` | sim/coralnpu_v2_instructions.cc:181-201 | with the shortcut: accepts iff all are permitted, or the range was cut to zero length |
| `VectorAccess.VectorUnit.Strided` | sim/coralnpu_v2_instructions.cc:403-513 | on success the operation is handed on without a trap; on failure exactly one trap and no operation |
| `VectorAccess.VectorUnit.Indexed` | sim/coralnpu_v2_instructions.cc:435-555 | the same for indexed accesses, with the decoded index of every element |
| `VectorAccess.VectorUnit.VlStrided` | sim/coralnpu_v2_instructions.cc:363-393 | an unusable group multiplier is an illegal instruction; otherwise as above |
| `VectorAccess.FirstRefusedUnique` | sim/coralnpu_v2_instructions.cc:159-177 | the first refused field is unique, so the trap value is determined |
| `Words.InBlock` | sim/renode/coralnpu_renode_memory.cc:151-160 | the addresses of one block's part of an access are exactly that block's cells |
| `RenodeMemory.Memory.LoadStoreHelper` | sim/renode/coralnpu_renode_memory.cc:147-179 | for any block size and span of blocks, a load returns exactly the slice of the flat view and a store changes exactly that slice |
| `RenodeMemory.Memory.Load` | sim/renode/coralnpu_renode_memory.cc:54-62 | a scalar load returns its slice |
| `RenodeMemory.Memory.Store` | sim/renode/coralnpu_renode_memory.cc:117-124 | a scalar store writes its slice |
| `RenodeMemory.Memory.Gather` | sim/renode/coralnpu_renode_memory.cc:81-97 | a masked gather or unit-stride load equals the lane-by-lane fold on the flat view |
| `RenodeMemory.Memory.Scatter` | sim/renode/coralnpu_renode_memory.cc:126-145 | a masked scatter or unit-stride store equals the lane-by-lane fold on the flat view |
| `RenodeMemory.LanePlace` | sim/renode/coralnpu_renode_memory.cc:93-95 | with one address lane i is at that address plus i element sizes, otherwise at its own address |
| `RenodeMemory.ScatteredByte` | sim/renode/coralnpu_renode_memory.cc:126-145 | a byte after a scatter comes from the last active lane that covers it, and is unchanged if none does |
| `RenodeMemory.GatheredLane` | sim/renode/coralnpu_renode_memory.cc:81-97 | a gather fetches every active lane and leaves the others alone |
| `RenodeMemory.GatherUndoesScatter` | sim/renode/coralnpu_renode_memory.cc:81-145 | gathering after scattering returns the stored data when the active lanes do not overlap |
| `VectorMemory.LoadAddresses` | sim/coralnpu_vector_memory_instructions.cc:56-86 | the load's loop over what is left fills in the address of every element and an all-true mask |
| `VectorMemory.StoreAddresses` | sim/coralnpu_vector_memory_instructions.cc:179-226 | the store's loop with a running index fills in the same addresses and the elements in order |
| `VectorMemory.ElementPlace` | sim/coralnpu_vector_memory_instructions.cc:73-83 | element i of register op is at (base + op * step) mod 2^32 plus i element sizes |
| `VectorMemory.ElementOfGroup` | sim/coralnpu_vector_memory_instructions.cc:204-226 | element k of a group is lane k % N of register k / N |
| `VectorMemory.LdRegWrite` | sim/coralnpu_vector_memory_instructions.cc:128-153 | loaded elements in order, zeros behind them |
| `VectorMemory.AddressesSpread` | sim/coralnpu_vector_memory_instructions.cc:56-86 | where no accessed element wraps around and registers are apart, no two elements overlap |
| `VectorMemory.LoadUndoesStore` | sim/coralnpu_vector_memory_instructions.cc:128-226 | elements stored at separate addresses load back |
| `VectorMemory.LoadReturnsStored` | sim/coralnpu_vector_memory_instructions.cc:56-226 | a load in the mode of the store gives back the first elements of the group and zeros after them, as long as no accessed element wraps around |
| `Bf16.FcvtBf16S` | sim/coralnpu_m3_zfbfmin_overrides.cc:63-124 | the second implementation agrees with the first on value and flags, for every pattern and mode |
| `Bf16Rounding.RoundsDown` | sim/coralnpu_m3_instructions.cc:77-133 | the result is the greatest bfloat16 value not above the input |
| `Bf16Rounding.RoundsUp` | sim/coralnpu_m3_instructions.cc:77-133 | the result is the least bfloat16 value not below the input |
| `Bf16Rounding.RoundsTowardZero` | sim/coralnpu_m3_instructions.cc:77-133 | the result is the bfloat16 value of greatest magnitude not beyond the input |
| `Bf16Rounding.RoundsToNearest` | sim/coralnpu_m3_instructions.cc:77-133 | no bfloat16 value is closer, and ties go to the even pattern or away from zero |
| `Bf16Rounding.RoundingIsMonotone` | sim/coralnpu_m3_instructions.cc:77-133 | rounding is monotone in the real order, in every mode |
| `Bf16Rounding.InexactMeansChanged` | sim/coralnpu_m3_instructions.cc:91-93 | inexact is raised iff the value changed |
| `Bf16Rounding.FlagsOfRounding` | sim/coralnpu_m3_instructions.cc:116-131 | overflow iff a finite input became infinite; underflow iff an inexact result is zero or subnormal |
| `Bf16Rounding.NarrowUndoesWiden` | sim/coralnpu_m3_instructions.cc:137-183 | widening then narrowing is the identity without flags for everything but NaNs |
| `Bf16Rounding.WideningOfNaNs` | sim/coralnpu_m3_instructions.cc:160-183 | for every half: it widens to a NaN iff it is one, then to the quiet canonical one; invalid iff it is signaling; no other flag ever |
| `Bf16Rounding.NarrowingOfNaNs` | sim/coralnpu_m3_instructions.cc:137-148 | for every word and mode: it narrows to a NaN iff it is one, then to 0x7FC0 with no flag but invalid; invalid iff it is signaling |
| `Bf16.RealScale` | sim/coralnpu_m3_instructions.cc:77-133 | the values of magnitudes: integers in the two lowest binades, twice as much one binade up, negated by the sign |
| `Bf16.SignalingByFields` | sim/coralnpu_m3_instructions.cc:141-144 | a NaN is signaling iff the leading bit of its nonzero fraction is clear |
| `Bf16Vectors.Overlaps` | sim/coralnpu_m3_instructions.cc:320-334 | the nested loops find whether the register groups share a register |
| `Bf16Vectors.VectorState.ConvertElements` | sim/coralnpu_m3_instructions.cc:361-396 | the loop with lazily copied destination registers converts exactly the active elements from vstart to vl and leaves all others undisturbed |
| `Bf16Vectors.VectorState.Vfwcvtbf16ffv` | sim/coralnpu_m3_instructions.cc:289-405 | the widening instruction: its traps in their order, its elements, vstart cleared, flags or-ed in |
| `Bf16Vectors.VectorState.Vfncvtbf16ffw` | sim/coralnpu_m3_instructions.cc:407-529 | the narrowing instruction: its traps in their order, its elements, vstart cleared, flags or-ed in |
| `Bf16Vectors.FlagsComeFromActive` | sim/coralnpu_m3_instructions.cc:378-404 | a flag is raised iff some active element raises it |
| `Bf16Vectors.EachFlagFromActive` | sim/coralnpu_m3_instructions.cc:378-404 | each of invalid, overflow, underflow and inexact is raised iff an active element from vstart to vl raises it |
| `Bf16Vectors.ElementBehindWalk` | sim/coralnpu_m3_instructions.cc:361-396 | behind the walk, lane k % N of register k / N holds the converted element iff vstart <= k < vl and the mask bit is set, and its old value otherwise |
| `Masks.ActiveIsMaskBit` | sim/coralnpu_m3_instructions.cc:378-383 | element i is active iff bit i of the mask register as one little-endian number is set, or there is no mask |
| `Bf16Vectors.NarrowUndoesWidenElement` | sim/coralnpu_m3_instructions.cc:378-519 | element-wise, narrowing undoes widening |
| `ExecutionTracker.ExpandVectorReg` | sim/execution_tracker.cc:72-108 | a vector name expands by the group size in force, wrapping at 32, and to nothing when vl is 0 |
| `ExecutionTracker.ExpandedGroup` | sim/execution_tracker.cc:72-104 | the name v<n> in decimal stands for registers n, n + 1, ... modulo 32, as many as the multiplier has whole registers |
| `ExecutionTracker.ExpandedName` | sim/execution_tracker.cc:72-108 | a vector name stands for nothing when vl is 0, and every other name for itself |
| `ExecutionTracker.OperandKeysAreListed` | sim/execution_tracker.cc:121-135 | every register of an operand that is present and carries an object is among the list's registers |
| `ExecutionTracker.ListedKeysAreOfOperands` | sim/execution_tracker.cc:121-135 | and every register of the list comes from such an operand |
| `ExecutionTracker.Tracker.OnInstruction` | sim/execution_tracker.cc:23-177 | every instruction keeps the maps in step with the trace: opcode counts, hazard counts and addresses, last writers and side effects |
| `ExecutionTracker.Tracker.LogOpcode` | sim/execution_tracker.cc:40-51 | one more instruction, counted under its opcode or as unknown |
| `ExecutionTracker.Tracker.CalculateHazardDistance` | sim/execution_tracker.cc:53-177 | the hazard and side-effect statistics follow the trace by one instruction, and opcode counts stay |
| `ExecutionTracker.Tracker.TrackSources` | sim/execution_tracker.cc:121-157 | the source loops add exactly the hits of the instruction's expanded reads |
| `ExecutionTracker.Tracker.RecordDestinations` | sim/execution_tracker.cc:159-177 | exactly the expanded destinations become written now |
| `ExecutionTracker.MapHitsAreHits` | sim/execution_tracker.cc:131-155 | counting against the map counts the reads whose latest earlier writer is exactly d instructions back |
| `ExecutionTracker.LastWriterIsLatest` | sim/execution_tracker.cc:159-177 | the writer that a read is measured from writes the register, and no later instruction does |
| `ExecutionTracker.HitIsLatestWriter` | sim/execution_tracker.cc:131-145 | a read counts at distance d iff the instruction d back writes the register and none in between does |
| `ExecutionTracker.AddressIsLatest` | sim/execution_tracker.cc:144-150 | the address kept for a distance is that of the latest instruction with such a hazard, and none is kept without one |
| `ExecutionTracker.WriterStatistics` | sim/execution_tracker.cc:159-172 | the last-written map names, for each register, the latest instruction of the trace that writes it |

## Left out

- Program loading, ELF, protobuf, console and file output, threads, the DPI and Renode glue: input and output.
- The mpact-sim and mpact-riscv classes are not part of this model: operands are flat, element i of an operand is lane i % N of register i / N; source and destination groups are disjoint.
- The assembler's text path, register-name tables and disassembly: emitted instructions are a datatype. Absolute branch targets become offsets from the branch's own address.
- IsgEngine.Engine.EmitInstruction: scalar instructions only; vector instructions with their automatic vsetvli, and the watchdog's tick, are not emitted here.
- EmitVectorLoadIndexed: its index clamp does not bound addresses.
- The rest of the preamble behind the fill loop (register, CSR and vector initialisation): straight-line constant loads.
- Packing of the convolution command words: bit-field layout is implementation-defined; the fields are parameters.
- Sparsity 3 of the depthwise convolution: it traps without returning.
- Code and data are separate stores in the interpreter, so self-modifying code is not modelled.
- The vector-register checks read element 0 under a 32-bit element width.
- The random generators, the watchdog, the archive and the search loop: draws and injected words are parameters of the mutation. A parent without a binary is compiled first in the original; here it has one.
- Shift amounts whose negation overflows 32 bits.
- Quad stores and the address post-increment of vector loads and stores, and the cache bit masked off the address.
- Addressable units other than one byte in the block-split memory; the delayed execution after a load.
- Element values of vector loads and stores are byte strings; their interpretation as integers plays no part.
- Bf16Vectors.VectorState.Vfwcvtbf16ffv: a hart without floating-point or vector state, for which the original returns at once, is not modelled.
- Bf16Vectors.VectorState.Vfncvtbf16ffw: as above; the dynamic rounding mode is a parameter, valid or absent.
- NaN boxing of the scalar bfloat16 instructions.
- ExecutionTracker.Tracker.OnInstruction: the names of generator functions and the floating-point poison statistics are not kept; opcodes are counted by number, not by name.
- Register numbers with so many digits that the original's integer overflows.
