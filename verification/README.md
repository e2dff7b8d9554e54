# Verified models of the lifted-program runtimes

This project models the parts of the runtimes under `runtime/` where a claim about the lifted machine has
to hold in every run, and proves those claims. The parts are:

- **Flags** (`Words`, `FlagWords`, `EagerFlags`, `LazyFlags`, `FlagSimulation`): the eager CPU of
  `recomp32_cpu` and the lazy tuple of `recomp32`, each proved against the meaning Intel gives the flags
  (section 3.4.3.1 of the Intel SDM, Volume 1) and proved to simulate each other, under exact conditions
  after `bt` and narrow `adc` and `sbb`.
- **rep movs** (`RepMovs`): the memmove shortcut against the element-by-element copy.
- **x64 unwinding and throwing** (`Unwind64`, `Prologue64`, `Frame64`, `Throw64`): the unwind-code
  interpreter undoes every well-formed prologue, and a throw finds the innermost catching frame of the
  real call chain.
- **x86 C++ exceptions** (`Eh32`): the two-phase search and unwind along the fs:[0] chain.
- **The banded rasteriser** (`RasterStreams`, `RasterPixels`, `RasterBands`, `RasterDraw`, `RasterPool`): which
  pixels a command draws; drawing in bands on many threads gives the picture of drawing in order, and the
  job/pending barrier is right and live.
- **The machine lock** (`MachineLock`, `MachineLockSafety`, `MachineLockCallbacks`, `MachineLockProgress`,
  `MachineLockRuns`): one global register file handed between threads by a recursive lock and put back after
  callbacks, with the kill protocol of TerminateThread, as interleaved steps, and what threads wait for.
- **DOS heaps and saved states** (`Arena`, `Pages`).
- **NeXTSTEP selectors, linking and method lookup** (`Selectors`, `ObjcLinking`, `ObjcLookup`,
  `ObjcProgram`): end to end, from the program as loaded to the method a message finds.
- **Carry and decimal chains** of 16-bit code (`MultiWord`).
- **The registry and its file** (`RegistryTree`, `RegistryText`, `RegistryFile`).
- **The DirectDraw copy** (`Blit`).
- **Tiled Win16 selectors** (`Win16Selectors`).

Code that updates state in place is a class with methods or a step machine; each method is proved against
a function or predicate over its old state, and the lemmas beside it prove what that function means.

Where the code does less than one would expect, the model keeps the code and a lemma gives the exact
condition:

- `pushfd` of a tuple left by a logical operation keeps all conditions exactly when the carry handed in is
  clear; after a shift it need not be (`FlagSimulation.FreezeKeepsAnswers`).
- After `bt` the conditions on the carry are right, all conditions are exactly when the flags `bt` leaves
  alone were those of a zero, and the carry `adc` and `sbb` read is exactly when the tested bit is the
  carry there was (`FlagSimulation.BitTestAnswers`).
- A narrow `adc` is added at 32 bits: the carry is right exactly when the narrow sum does not carry, and
  all conditions exactly when it does not reach the sign bit; after a narrow `sbb` the carry is always
  right, and all conditions exactly when the operands have the same sign (`FlagSimulation.StepSimulates`,
  with `NarrowAdcDiffers` as an input).
- A thread that terminates itself frees the machine lock exactly when it holds one claim, and one that
  ends in native code exactly when no callback of it is in progress; otherwise nobody enters the lock
  again (`MachineLockSafety.SelfTerminationFreesLock`, `EndFreesLock`, `OrphanedForEver`). Such a run exists
  from every state in which a thread runs lifted code (`MachineLockRuns.SelfTerminationOrphans`).
- A thread can be killed while it is queued on the lock exactly when it had no slot when the killer looked
  it up (`MachineLockRuns.SlotDecides`).
- 32-bit frame unwinding ends at the try block's low state exactly when the unwind map leads there
  (`Eh32.FinalIsTarget`).
- The heaps' and the selector allocator's tests for room are made on 32-bit sums; they are the tests meant
  exactly when the sum does not wrap, or still fails (`Arena.GrowTestIsRight`, `Arena.RoundedCovers`,
  `Win16Selectors.RoomTest`). A served selector request keeps blocks apart exactly when its sums do not
  wrap (`Win16Selectors.StepKeepsIff`), and one that wraps can be served (`WrapIsServed`).
- A Win16 block is reachable in full exactly when the selectors last for all its tiles
  (`Win16Selectors.AllReached`).
- A registry value comes back from the file unchanged exactly when it is a string that ends at its only
  NUL, a 4-byte DWORD, or BINARY that fits the buffer; any other type comes back as BINARY
  (`RegistryText.NormalKeeps`).
- A registry value is found under its own name exactly when the name fits the buffer, and setting one
  keeps names distinct exactly when it fits or its first part is not set yet (`RegistryTree.FoundByOwnName`,
  `PutAtKeeps`).
- Linking a category overwrites the `next` word of its list: lists behind it stay on the target only if
  they are there in their own right, and when they are the category's alone all of it is linked exactly
  when there were none (`ObjcProgram.TailsKept`, with `MethodLost` as a program).
- Of two try blocks that start at the same state the first in the table catches; that is the inner one
  when inner tries come first (`Throw64.LandingIsInnermost`, `OuterFirstLands`).

## Model

| member | source | states |
|---|---|---|
| FlagWords.CompareConditions | runtime/recomp32_cpu/cpu.h:267-273 | after a compare, every condition is what its name says of the operands and of their difference |
| FlagWords.SameConditions | runtime/recomp32/recomp_types.h:422-505 | two flag sets answer all sixteen conditions alike iff they agree on CF, PF, ZF, SF and OF |
| FlagWords.ParityFold | runtime/recomp32_cpu/cpu.h:222-225 | the xor fold of a byte is even parity of its bits |
| FlagWords.NibbleCarry | runtime/recomp32_cpu/cpu.h:274-280 | bit 4 of a ^ b ^ r is the carry out of the low nibble of a sum, at every width |
| FlagWords.NibbleBorrow | runtime/recomp32_cpu/cpu.h:267-273 | the same for the borrow of a difference |
| FlagWords.SumOverflow | runtime/recomp32_cpu/cpu.h:274-280 | equal signs in and the other out is exactly the signed sum not fitting the width |
| FlagWords.DifferenceOverflow | runtime/recomp32_cpu/cpu.h:267-273 | unlike signs in and the first sign lost is exactly the signed difference not fitting |
| EagerFlags.Cpu.FlagsSub | runtime/recomp32_cpu/cpu.h:267-273 | result and all six flags are Intel's for an unbounded-integer subtraction at 8, 16 and 32 bits |
| EagerFlags.Cpu.FlagsAdd | runtime/recomp32_cpu/cpu.h:274-280 | the same for addition |
| EagerFlags.Cpu.FlagsLogic | runtime/recomp32_cpu/cpu.h:281-285 | CF and OF cleared, ZF, SF, PF from the result, AF as it was |
| EagerFlags.Cpu.FlagsInc | runtime/recomp32_cpu/cpu.h:286-288 | addition of 1 with the carry kept |
| EagerFlags.Cpu.FlagsDec | runtime/recomp32_cpu/cpu.h:289-291 | subtraction of 1 with the carry kept |
| EagerFlags.Cpu.FlagsAdc | runtime/recomp32_cpu/cpu.h:292-298 | addition with the carry as a third operand, flags of the three-operand sum |
| EagerFlags.Cpu.FlagsSbb | runtime/recomp32_cpu/cpu.h:299-305 | subtraction with borrow, flags of the three-operand difference |
| EagerFlags.PackUnpack | runtime/recomp32_cpu/cpu.h:186-193 | popfd takes back exactly the flags pushfd packed |
| EagerFlags.SumCarry | runtime/recomp32_cpu/cpu.h:274-298 | the three ways the helpers compute a carry agree with the sum reaching the modulus |
| EagerFlags.WrappedBorrow | runtime/recomp32_cpu/cpu.h:299-305 | the bit above the width of the wrapped 64-bit difference is the borrow |
| LazyFlags.AlignedSum | runtime/recomp32/recomp_types.h:457-464 | sums of left-aligned narrow operands have the narrow sum's carry, sign, zero and overflow |
| LazyFlags.AlignedDifference | runtime/recomp32/recomp_types.h:475-505 | the same for differences |
| FlagSimulation.Execute | runtime/recomp32_cpu/cpu.h:267-305 | the eager CPU's helpers step the eager state |
| FlagSimulation.NarrowSum | tools/lift/lift32.py:1302-1315 | a narrow sum taken at 32 bits has the same PF and AF, the same carry iff it does not carry, and all six flags iff it does not reach the sign bit |
| FlagSimulation.NarrowDifference | tools/lift/lift32.py:1317-1353 | a narrow difference taken at 32 bits has the same borrow, PF and AF, and all six flags iff the operands have the same sign |
| FlagSimulation.StepSimulates | runtime/recomp32/recomp_types.h:422-665 | from equal carries, one instruction at any width keeps every condition and the carry equal in both runtimes, iff CarryKept and AnswersKept, which hold except after bt and narrow adc and sbb |
| FlagSimulation.RunSimulates | runtime/recomp32/recomp_types.h:404-668 | over every instruction sequence that keeps the carries on the way, all sixteen conditions and the carry of the lazy tuple are the eager CPU's at the end iff the last instruction keeps them |
| FlagSimulation.PlainRunSimulates | runtime/recomp32/recomp_types.h:404-668 | over every sequence of add, sub, cmp, logic, inc and dec at 8, 16 and 32 bits and adc and sbb at 32 bits they are, unconditionally |
| FlagSimulation.NarrowAdcDiffers | tools/lift/lift32.py:1302-1315 | adc al, bl with 0xFF and 1: the eager CPU has a carry and a zero, the lazy tuple neither |
| FlagSimulation.AdcMeaning | runtime/recomp32/recomp_types.h:651-657 | the lazy adc word holds exactly the flags of the three-operand sum |
| FlagSimulation.SbbMeaning | runtime/recomp32/recomp_types.h:659-665 | the lazy sbb word holds exactly the flags of the three-operand difference |
| FlagSimulation.WordMeaning | runtime/recomp32/recomp_types.h:427-434 | a finished flag word is read back as the flags it was packed from |
| FlagSimulation.FreezeKeepsAnswers | runtime/recomp32/recomp_types.h:582-645 | freezing to a word keeps all sixteen answers for every kind; for the logical kind iff the carry handed in is clear |
| FlagSimulation.PushfdAgrees | runtime/recomp32/recomp_types.h:582-645 | after any instruction at any width pushfd stores the same word in both runtimes, up to AF after a logical operation, iff WordKept, which holds except after bt and narrow adc and sbb |
| FlagSimulation.BitTestAnswers | runtime/recomp32/recomp_types.h:470-474 | after bt the carry conditions agree, all conditions agree iff the flags bt left alone were a zero's, and the carry adc and sbb read agrees iff the tested bit is the stored carry |
| FlagSimulation.BitTestReads | runtime/recomp32/recomp_types.h:470-472 | after bt a, b the carry condition and the carry bit of pushfd are bit b mod 32 of a, in both runtimes |
| FlagSimulation.DirectionBit | runtime/recomp32/recomp_types.h:602-640 | bit 10 of every pushfd word is the direction, whatever kind the flags are of |
| FlagSimulation.ToggledBitsKept | runtime/recomp32/recomp_types.h:589-602 | popfd and then pushfd keeps bits 18 and 21, and bits 1 and 9 read as set |
| RepMovs.RecompRepMovs | runtime/recomp32/recomp_types.h:246-256 | memory after the call is that of the CPU's element-by-element copy, in both directions and for every overlap |
| RepMovs.Walk | runtime/recomp32/recomp_types.h:254-255 | the element loop is the CPU's copy |
| RepMovs.UpIsMove | runtime/recomp32/recomp_types.h:248-250 | going up, when the destination does not start inside what is still to be read, the CPU's copy is a memmove |
| RepMovs.DownIsMove | runtime/recomp32/recomp_types.h:248-252 | the same going down |
| RepMovs.UpReadsItself | runtime/recomp32/recomp_types.h:239-245 | going up into its own input, every byte written ends equal to the byte it was read from |
| RepMovs.UpRepeats | runtime/recomp32/recomp_types.h:239-245 | with edi = esi + k and k at least an element, destination byte j is source byte j mod k |
| RepMovs.DownReadsItself | runtime/recomp32/recomp_types.h:254-255 | going down into its own input, every byte written ends equal to the byte it was read from |
| RepMovs.DownRepeats | runtime/recomp32/recomp_types.h:254-255 | with esi = edi + k and k at least an element, the last k bytes of the source repeat down the destination |
| Unwind64.PdataFind | runtime/recomp64_cpu/eh64.c:86-96 | the binary search finds the entry containing the address, and fails only if there is none |
| Unwind64.Cpu.UndoCode | runtime/recomp64_cpu/eh64.c:163-206 | one unwind code applied in place is the code's effect on the registers |
| Unwind64.RunIsOfHappened | runtime/recomp64_cpu/eh64.c:168 | at a point inside the prologue exactly the codes at or before it are undone |
| Unwind64.Cpu.UndoLevel | runtime/recomp64_cpu/eh64.c:163-208 | the loop over one UNWIND_INFO applies the codes behind the current point, in order |
| Unwind64.Cpu.UnwindOne | runtime/recomp64_cpu/eh64.c:133-221 | registers and pc after unwind_one are those of undoing all chained infos and popping the return address, and the establisher is where that was; a leaf just pops |
| Unwind64.Cpu.FrameEstablisher | runtime/recomp64_cpu/eh64.c:113-121 | the frame base the C++ tables measure from |
| Prologue64.WriteRead | runtime/recomp64_cpu/eh64.c:163-206 | an 8-byte cell read back is the value stored, also across the end of the address space |
| Prologue64.PrologueLeaves | runtime/recomp64_cpu/eh64.c:98-106 | what running a well-formed prologue leaves: depth, frame register, save slots, untouched registers |
| Prologue64.UndoRestores | runtime/recomp64_cpu/eh64.c:133-221 | interpreting the codes last-first undoes the prologue: rsp at the return address, saved registers as on entry, the rest untouched |
| Frame64.ChainIsRun | runtime/recomp64_cpu/eh64.c:209-215 | running chained infos one by one is running all their codes from one base |
| Frame64.EstablisherIsBase | runtime/recomp64_cpu/eh64.c:113-121 | at a body point frame_establisher gives the base the saves are measured from |
| Frame64.UnwindRestores | runtime/recomp64_cpu/eh64.c:133-221 | unwind_one restores the caller wherever the slots hold and the frame register or rsp is where the prologue put it |
| Frame64.PrologueBodyUnwind | runtime/recomp64_cpu/eh64.c:133-221 | prologue, then any body that keeps its slots and anchor, then unwind_one: the caller's pc, rsp and every saved register |
| Frame64.DecodeEncode | runtime/recomp64_cpu/eh64.c:163-206 | one encoded unwind code is decoded as itself |
| Frame64.DecodeEncodeAll | runtime/recomp64_cpu/eh64.c:163-208 | a whole encoded table is decoded as itself |
| Frame64.WrittenIsRead | runtime/recomp64_cpu/eh64.c:209-215 | a table split over any number of chained infos is read as the concatenation of its parts |
| Frame64.InfoRead | runtime/recomp64_cpu/eh64.c:151-159 | an UNWIND_INFO stored byte for byte is read back: frame register and offset, codes, and through the padding the info it is chained to |
| Frame64.TableInBytes | runtime/recomp64_cpu/eh64.c:151-208 | a table given in hexadecimal is read as the prologue its instructions name, and its frame base is rbp - 20h |
| Frame64.OtherForms | runtime/recomp64_cpu/eh64.c:178-204 | the short allocation and the codes with 32-bit operands, from their bytes |
| Frame64.RvaOf | runtime/recomp64_cpu/eh64.c:135 | an address of the image is turned back into its RVA, also when the image wraps around the address space |
| Frame64.TableDescribes | runtime/recomp64_cpu/eh64.c:133-221 | stored bytes of a table for a prologue, in one info or split over chained ones, meet the premise of PrologueBodyUnwind at every body point of the function |
| Throw64.StateAtIsRange | runtime/recomp64_cpu/eh64.c:255-263 | on a sorted ip-to-state map the state found is the one whose range holds the address |
| Throw64.FindState | runtime/recomp64_cpu/eh64.c:255-263 | the loop computes that state |
| Throw64.SelectTry | runtime/recomp64_cpu/eh64.c:327-348 | the two loops pick the catching try with the highest low state and its first matching handler, or say there is none |
| Throw64.LandingUnique | runtime/recomp64_cpu/eh64.c:327-348 | there is only one such try |
| Throw64.LandingIsInnermost | runtime/recomp64_cpu/eh64.c:327-348 | with inner tries first in the table the one picked is the first that catches and lies inside every other one that does, also with equal low states |
| Throw64.OuterFirstLands | runtime/recomp64_cpu/eh64.c:336 | with the outer of two tries of equal low state first, the outer one is picked |
| Throw64.EhThrow | runtime/recomp64_cpu/eh64.c:294-393 | the frame loop stops at the first of at most 512 frames that catches, with that frame's registers and base |
| Throw64.CallStateCatches | runtime/recomp64_cpu/eh64.c:324-348 | the clause picked is the first that takes the object in the innermost try covering the state whose ip range holds the byte before the return address; before the first range nothing is caught |
| Throw64.UnwindLive | runtime/recomp64_cpu/eh64.c:133-221 | unwinding a live frame gives its caller's pc and stack pointer and every register the caller may count on |
| Throw64.StepUp | runtime/recomp64_cpu/eh64.c:306-393 | one round of the throw loop carries agreement from a frame to its caller |
| Throw64.WalkFindsInnermost | runtime/recomp64_cpu/eh64.c:294-393 | on every real call chain the throw lands in the innermost catching frame with that frame's own base, or reports none |
| Eh32.Guest.UnwindTo | runtime/native32/eh32.c:113-124 | state word and cleanup log after unwinding: exactly the cleanups on the map's way down, in order |
| Eh32.PathFalls | runtime/native32/eh32.c:113-124 | the way down leaves no state twice, so no cleanup runs twice |
| Eh32.PathSteps | runtime/native32/eh32.c:113-124 | the way down starts at the current state, follows the map's next entries, and stops at the target or off the map |
| Eh32.CleanupsInOrder | runtime/native32/eh32.c:113-124 | each state left runs its cleanup if it has one, in the order the states are left |
| Eh32.FinalIsTarget | runtime/native32/eh32.c:113-124 | unwinding ends at its target iff the map leads there; -1 is reached from every state of the map |
| Eh32.UnwindInTwo | runtime/native32/eh32.c:113-124 | unwinding to a try and on to -1 leaves the states that unwinding to -1 at once leaves |
| Eh32.Guest.Search | runtime/native32/eh32.c:172-183 | the clause found is the first, try by try, with lo <= state <= hi that is a catch(...) or takes the type; none is found only if there is none |
| Eh32.Guest.UnwindInner | runtime/native32/eh32.c:188-191 | every frame before the catching one is unwound to -1, newest first, and no other state moves |
| Eh32.Guest.Catch | runtime/native32/eh32.c:187-213 | chain head, states, log and host frame after a catch |
| Eh32.Guest.Dispatch | runtime/native32/eh32.c:166-218 | dispatch lands in the innermost catching frame after all inner cleanups and its own down to the try; it answers NotCaught iff no frame, try and clause of the chain covers its state and is a catch(...) or takes the type |
| Eh32.ChosenClause | runtime/native32/eh32.c:166-183 | frame, try and clause chosen are the first of the chain with lo <= state <= hi whose type is 0 or takes the object |
| Eh32.ChainLinks | runtime/native32/eh32.c:168 | the chain ends at 0 or 0xFFFFFFFF and nowhere else |
| Eh32.InnerRanFirst | runtime/native32/eh32.c:188-191 | the innermost frame's cleanups run first; a frame whose handler is not a C++ one has none |
| Eh32.UnwoundIsMinusOne | runtime/native32/eh32.c:188-191 | after a dispatch each inner frame whose state was in its map stands at -1 |
| Eh32.Guest.Land | runtime/native32/eh32.c:203-213 | the newest host frame of the catching function becomes the newest of all; without one nothing is dropped |
| Eh32.LandsInFirst | runtime/native32/eh32.c:202-213 | the landing is the first frame entered at the stack pointer, with everything older; none is dropped if there is none |
| Eh32.Guest.Pop | runtime/native32/eh32.c:57-61 | the frame and all newer ones go; a frame already dropped changes nothing |
| Eh32.PoppedAt | runtime/native32/eh32.c:55-61 | a pop gives back the frames there were at the push, whatever was pushed and not popped since |
| Eh32.Guest.Owner | runtime/native32/eh32.c:70-74 | the newest frame entered above the stack pointer, or none if there is none |
| RasterStreams.FragsNarrow | runtime/win32hle/d3d_raster.c:260-328 | a command clipped to a band draws the command's fragments on the band's rows, in order |
| RasterStreams.StreamNarrow | runtime/win32hle/d3d_raster.c:347-364 | a band's stream is the band's rows of the whole command list's stream, in the same order |
| RasterPixels.TriangleDraws | runtime/win32hle/d3d_raster.c:267-312 | a triangle draws exactly its covered pixels that are in its box and in the clip rectangle, each once, row by row from the left, with the state's target and z-buffer |
| RasterPixels.LineDraws | runtime/win32hle/d3d_raster.c:315-328 | a line of 1 to 8192 steps draws exactly its points in the clip rectangle, from start to end; any other line nothing |
| RasterPixels.FragmentLeaves | runtime/win32hle/d3d_raster.c:252-253 | a fragment that is not discarded leaves its colour in the target and its depth in the z-buffer, and nothing else changes |
| RasterPixels.LastDecides | runtime/win32hle/d3d_raster.c:330-334 | the last fragment at a place decides it, drawn over everything before it |
| RasterBands.BandEnds | runtime/win32hle/d3d_raster.c:349 | the first band starts at the top and the last ends at the bottom |
| RasterBands.BandOf | runtime/win32hle/d3d_raster.c:349 | every row of the flush is in a band |
| RasterBands.BandUnique | runtime/win32hle/d3d_raster.c:349 | and in one only |
| RasterBands.RowOnly | runtime/win32hle/d3d_raster.c:202-254 | a row of the picture depends only on the fragments of that row |
| RasterBands.BandsDrawInOrder | runtime/win32hle/d3d_raster.c:330-364 | any interleaving of the row bands of a fragment stream leaves, at every pixel of every surface, what the stream in order leaves |
| RasterDraw.Raster.PushState | runtime/win32hle/d3d_raster.c:398-406 | the index names the state given, earlier states keep their indices |
| RasterDraw.Raster.Submit | runtime/win32hle/d3d_raster.c:407-423 | what the recorded commands draw grows by the command with its own state, although states are shared |
| RasterDraw.Raster.DrawRow | runtime/win32hle/d3d_raster.c:299-312 | the row loop draws the row's fragments in order |
| RasterDraw.Raster.DrawTriangle | runtime/win32hle/d3d_raster.c:260-313 | the triangle's loops draw, in order, the fragments that TriangleDraws describes |
| RasterDraw.Raster.DrawLine | runtime/win32hle/d3d_raster.c:315-328 | the line's loop draws its fragments in order |
| RasterDraw.Raster.RunRows | runtime/win32hle/d3d_raster.c:347-364 | run_band, with its cached clipped state, draws exactly the band's stream |
| RasterDraw.Raster.FindRows | runtime/win32hle/d3d_raster.c:427-432 | the rows of a flush are the least top to the greatest bottom of the states |
| RasterDraw.Raster.FlushAlone | runtime/win32hle/d3d_raster.c:424-450 | without helpers a flush draws all commands in order and empties the list |
| RasterDraw.StreamInRows | runtime/win32hle/d3d_raster.c:427-432 | nothing the commands draw lies outside the flush's rows |
| RasterDraw.ThreadStreams | runtime/win32hle/d3d_raster.c:347-378 | the threads' streams are exactly the cut of the whole stream into bands |
| RasterDraw.CommandsDrawInOrder | runtime/win32hle/d3d_raster.c:330-364 | for every list of states and commands and every number of bands, any interleaving of threads that draw all commands clipped to their bands leaves at every pixel what drawing them in order leaves |
| RasterPool.StepKeeps | runtime/win32hle/d3d_raster.c:365-378 | every step of every thread keeps the pool's invariant |
| RasterPool.RunKeeps | runtime/win32hle/d3d_raster.c:365-450 | so does every run of recordings and flushes, with helpers or alone |
| RasterPool.PendingCounts | runtime/win32hle/d3d_raster.c:433-449 | each worker is at most one job behind and g_pending counts exactly those not finished |
| RasterPool.NobodyDrawsWhenListChanges | runtime/win32hle/d3d_raster.c:433-449 | commands are recorded or reset only while no worker is in run_band |
| RasterPool.FlushStarts | runtime/win32hle/d3d_raster.c:425-443 | a flush does something iff commands are recorded, and uses its helpers iff there are some and two edges of the clips are 64 rows or more apart |
| RasterPool.FlushDrawsInOrder | runtime/win32hle/d3d_raster.c:424-450 | when a flush returns, every pixel is what drawing the recorded commands in order, each with its own state, would leave, whatever the interleaving |
| RasterPool.RecordAdds | runtime/win32hle/d3d_raster.c:398-423 | recording adds the command with its own state to what is drawn, although equal states are stored once |
| RasterPool.RunDrawsInOrder | runtime/win32hle/d3d_raster.c:424-450 | in every run, between flushes the picture is the one at the start with everything flushed so far drawn over it in the order it was recorded |
| RasterPool.FlushNeverStuck | runtime/win32hle/d3d_raster.c:365-450 | no wake-up is lost: during a flush some thread can always take a working step |
| RasterPool.FlushProgresses | runtime/win32hle/d3d_raster.c:365-450 | every working step brings the flush nearer its end |
| MachineLockSafety.StepKeeps | runtime/native32/native32.c:93-194 | every step of mach_enter, mach_leave, yield, callbacks and TerminateThread keeps the invariant |
| MachineLockSafety.RunKeeps | runtime/native32/native32.c:93-194 | so does every run, also with threads that end inside a native call |
| MachineLockSafety.OneThreadRuns | runtime/native32/native32.c:141-194 | lifted code runs in one thread at a time, and there the recursion count is the thread's depth and its callback nesting |
| MachineLockSafety.RegistersAreOwn | runtime/native32/native32.c:47-63 | every thread finds the register file it would have if no other thread existed |
| MachineLockSafety.HandOver | runtime/native32/native32.c:141-183 | the register file a thread's outermost mach_enter leaves is the one its last outermost mach_leave left, whoever ran in between |
| MachineLockSafety.OthersChangeNothing | runtime/native32/native32.c:141-194 | no other thread's step changes the registers a thread sees |
| MachineLockCallbacks.CallbackGivesBack | runtime/native32/native32.c:949-972 | in every run, when a callback returns its thread is where it was when the callback came, with the registers and the claims it had then; if that was in lifted code the machine has those registers |
| MachineLockCallbacks.TerminateReturns | runtime/native32/native32.c:738-776 | a killer's registers change only when its TerminateThread returns, and then by the result alone |
| MachineLockCallbacks.TargetIsDead | runtime/native32/native32.c:768-775 | a real kill leaves the target dead and every third thread as it was |
| MachineLockProgress.MovesAre | runtime/native32/native32.c:93-194 | in every reachable state a thread can do exactly what its place in the code asks for, with the lock and the thread it terminates as the only things it waits for |
| MachineLockProgress.WaitsForOnly | runtime/native32/native32.c:141-194 | a live thread cannot go on only if it is queued on a lock another thread has, or its TerminateThread waits for a target that has not ended |
| MachineLockProgress.WaitsForSomebody | runtime/native32/native32.c:748-765 | no deadlock: a thread that waits does so for one that can go on - the lock's owner, or its target - or else the lock's owner is dead |
| MachineLockProgress.ExitClears | runtime/native32/native32.c:117-127 | a doomed thread that ends at the lock leaves neither doom nor mark behind unless another killer comes in between |
| MachineLockSafety.DoomedNeverRuns | runtime/native32/native32.c:141-177 | a doomed thread never runs lifted code past its next lock entry |
| MachineLockSafety.KilledNeverQueued | runtime/native32/native32.c:738-777 | a thread with a slot that is really terminated is not queued on the lock and cannot queue any more |
| MachineLockSafety.ClaimsAreRetaken | runtime/native32/native32.c:748-765 | a killer that gave up d claims has exactly d again and its own registers, with only the result changed |
| MachineLockSafety.ExitFreesLock | runtime/native32/native32.c:117-127 | a doomed thread that got the lock leaves it free |
| MachineLockSafety.SelfTerminationFreesLock | runtime/native32/native32.c:738-747 | a thread terminating itself frees the lock iff it has one claim |
| MachineLockSafety.EndFreesLock | runtime/native32/native32.c:131-139 | a thread that ends in native code leaves the lock free of it iff no callback of it is in progress |
| MachineLockSafety.OrphanedForEver | runtime/native32/native32.c:738-747 | a lock with a dead owner is never entered again |
| MachineLockRuns.SelfTerminationOrphans | runtime/native32/native32.c:738-747 | from every reachable state with a thread in lifted code there is a run in which it terminates itself in a callback and leaves the lock with a dead owner |
| MachineLockRuns.SlotsKept | runtime/native32/native32.c:109-146 | in every reachable state a thread without a slot is undoomed and has not been past its first look for one |
| MachineLockRuns.LookupDecides | runtime/native32/native32.c:748-776 | within one TerminateThread the slot at the lookup decides whether the target is doomed before it is killed |
| MachineLockRuns.LateSlotQueued | runtime/native32/native32.c:738-777 | from every reachable state, a target without a slot at the lookup can be queued on the lock when it is killed |
| MachineLockRuns.SlotDecides | runtime/native32/native32.c:738-777 | a live target can come to be killed while queued on the lock iff it had no slot at the lookup |
| Arena.UpIsLeast | runtime/dos32/dos32.c:283 | the mask rounds up to the least multiple of the alignment |
| Arena.RoundedCovers | runtime/dos32/dos32.c:283-284 | a request gets at least what it asks for iff rounding does not wrap |
| Arena.NothingAsked | runtime/dos32/dos32.c:283-284 | a request for nothing gets one alignment |
| Arena.RoundedAgain | runtime/dos32/dos32.c:315-322 | rounding a rounded size changes nothing, so a moved block is as large as asked |
| Arena.FreeIsInGap | runtime/dos32/dos32.c:286-291 | a free range lies in one gap of the sorted list |
| Arena.NoneBelow | runtime/dos32/dos32.c:286-291 | if no earlier gap fits, no aligned free place is lower than the gap's first aligned address |
| Arena.Arena.Alloc | runtime/dos32/dos32.c:281-297 | lowest aligned place where the rounded size fits, zeroed, nothing else touched, the total in blocks up by the rounded size; 0 iff there is no place or the table is full |
| Arena.Arena.Find | runtime/dos32/dos32.c:299-302 | the block at the address, or -1 only if there is none |
| Arena.Arena.Free | runtime/dos32/dos32.c:304-310 | exactly the block at the address goes and its size leaves the total; memory is untouched; fails iff there is none |
| Arena.FreeUndoesAlloc | runtime/dos32/dos32.c:281-310 | freeing what was just allocated gives the old block list back |
| Arena.Arena.Resize | runtime/dos32/dos32.c:312-327 | contents up to the smaller size kept, growth zeroed, no other byte changed, in place iff there is room, otherwise first fit; nothing changes on failure |
| Arena.OthersUntouched | runtime/dos32/dos32.c:312-327 | a resize leaves every other block in the list with its bytes |
| Arena.Arena.FreeBytes | runtime/dos32/dos32.c:329-333 | hi - lo less the bytes in blocks, never negative |
| Arena.TotalInsert | runtime/dos32/dos32.c:293-294 | an allocation takes its rounded size off the free bytes |
| Arena.TotalRemove | runtime/dos32/dos32.c:304-310 | a free gives the block's size back |
| Arena.SameBlocks | runtime/dos32/dos32.c:276-297 | two laid-out lists with the same blocks are the same list |
| Arena.GrowTestIsRight | runtime/dos32/dos32.c:317 | the 32-bit test for growing in place is the test meant iff base + size does not wrap |
| Pages.File.PagesOut | runtime/dos32/dos32.c:1457-1464 | the file grows by exactly the image's encoding, or the write fails because it does not fit |
| Pages.File.PagesIn | runtime/dos32/dos32.c:1466-1474 | the image is what decoding the rest of the file gives, whatever memory held; fails iff the file is too short |
| Pages.DecodeEncode | runtime/dos32/dos32.c:1457-1474 | reading what was written gives the image back and uses up exactly the bytes written, whatever follows |
| Pages.CutShort | runtime/dos32/dos32.c:1466-1474 | every proper prefix of an encoding is noticed as too short |
| Pages.EncodeInjective | runtime/dos32/dos32.c:1457-1464 | different images have different encodings |
| Pages.EncodedPages | runtime/dos32/dos32.c:1457-1464 | the file holds the pages in order, each a 0 if all its bytes are 0 and otherwise a 1 and its bytes |
| Pages.PageRead | runtime/dos32/dos32.c:1466-1474 | any marker but 0 announces 4096 bytes, 0 a page of zeros |
| Pages.File.SaveMemory | runtime/dos32/dos32.c:1484 | three regions are written back to back |
| Pages.File.LoadMemory | runtime/dos32/dos32.c:1510 | three regions load independently of what memory held, and a cut-off image is reported |
| Pages.ReadsThree | runtime/dos32/dos32.c:1484-1510 | three reads in a row take apart what three writes put together |
| Selectors.Table.Search | runtime/nextstep/ns_objc.c:48-49 | the probe loop ends at the name's slot, or at the empty slot that proves it absent, while the table is not full |
| Selectors.Table.Unique | runtime/nextstep/ns_objc.c:45-52 | the canonical address of the string's name; the first address seen stays |
| Selectors.Table.Sel | runtime/nextstep/ns_objc.c:54-59 | the canonical address of a name, interning a copy if it is new |
| Selectors.MoreToProbe | runtime/nextstep/ns_objc.c:49 | the probe loop ends: a table with fewer names than slots has an empty slot ahead |
| Selectors.Enter | runtime/nextstep/ns_objc.c:50 | filling the slot a search ended at keeps every other name findable |
| Selectors.FirstWins | runtime/nextstep/ns_objc.c:45-52 | in any insertion order the canonical address is the first with that name |
| Selectors.SameSelector | runtime/nextstep/ns_objc.c:45-52 | two interned selectors have one canonical address iff their names are equal |
| Selectors.InternedStays | runtime/nextstep/ns_objc.c:45-52 | a canonical address never changes |
| ObjcLinking.Image.ClassByName | runtime/nextstep/ns_objc.c:66-70 | the first class of the name, or 0 |
| ObjcLinking.NamedIsFirst | runtime/nextstep/ns_objc.c:66-70 | the class found is the first of its name, and 0 is given iff no class has the name |
| ObjcLinking.RootMetaIsLast | runtime/nextstep/ns_objc.c:219-221 | the root metaclass is that of the last class without a superclass |
| ObjcLinking.Image.LinkClasses | runtime/nextstep/ns_objc.c:219-231 | every class's superclass word becomes the class it named, every metaclass's the superclass's metaclass, the root metaclass's the root class |
| ObjcLinking.MetaChain | runtime/nextstep/ns_objc.c:228-230 | a metaclass's chain is the metaclasses of its class's chain and then the root class |
| ObjcLinking.Image.Attach | runtime/nextstep/ns_objc.c:242-243 | a list goes in front of its target's lists and no other target's lists change |
| ObjcLinking.AttachmentsOfClass | runtime/nextstep/ns_objc.c:237-243 | a category attaches its instance methods to the first class of the name it gives and its class methods to the metaclass, as far as it has them; none without such a class |
| ObjcLinking.AttachmentsInOrder | runtime/nextstep/ns_objc.c:235-244 | the categories attach one after the other |
| ObjcLinking.NewerInFront | runtime/nextstep/ns_objc.c:242-243 | of two lists attached to one target the newer comes first, and behind both the lists it had |
| ObjcLinking.Image.LinkCategories | runtime/nextstep/ns_objc.c:234-245 | every target's lists are the categories' lists, newest first, and then its own |
| ObjcLinking.Image.UniqueList | runtime/nextstep/ns_objc.c:72-80 | the lists' selectors become canonical, names and implementations stay, other lists are untouched |
| ObjcLinking.Image.LinkSelectors | runtime/nextstep/ns_objc.c:247-255 | all lists of all classes and metaclasses become canonical and every message reference the canonical selector of its name |
| ObjcLookup.Lookup.Find | runtime/nextstep/ns_objc.c:86-100 | the answer is that of an uncached search, whatever earlier lookups left in the cache |
| ObjcLookup.Lookup.SearchClasses | runtime/nextstep/ns_objc.c:89-99 | the loops find the first method along the class chain and its lists, or 0 |
| ObjcLookup.FirstConcat | runtime/nextstep/ns_objc.c:89-98 | the first match in two lists is the first list's if it has one |
| ObjcLookup.FirstIsNamed | runtime/nextstep/ns_objc.c:72-80 | among canonical methods the first with a canonical selector is the first of its name |
| ObjcLookup.SearchIsByName | runtime/nextstep/ns_objc.c:86-100 | over canonical lists a search with a canonical selector finds the first method that was loaded under its name |
| ObjcProgram.AncestorsLinked | runtime/nextstep/ns_objc.c:223-231 | after the class loop a class's chain is its ancestors by the names of their superclasses |
| ObjcProgram.LinesLinked | runtime/nextstep/ns_objc.c:223-231 | and a metaclass's chain the metaclasses of those and the root class |
| ObjcProgram.AttachmentsKeep | runtime/nextstep/ns_objc.c:234-245 | what the categories attach does not depend on the class loop |
| ObjcProgram.AttachedMembers | runtime/nextstep/ns_objc.c:242-243 | a list is on a target after linking iff it was before or is attached to it |
| ObjcProgram.Init | runtime/nextstep/ns_objc.c:209-255 | the three linking loops, from any program with acyclic superclass names and lists of its own, leave a runtime whose lookups are by name, and canonical message references |
| ObjcProgram.Runtime.Message | runtime/nextstep/ns_objc.c:86-100 | after linking, a message finds the first method of its selector's name among the methods as loaded, along the named superclasses and in each class the categories' lists first, whatever the cache holds |
| ObjcProgram.Runtime.SendNamed | runtime/nextstep/ns_objc.c:145-154 | the same for a message sent by name, also by a name not seen before |
| ObjcProgram.TailsKept | runtime/nextstep/ns_objc.c:242 | all lists of a category are on the target iff those behind its first are there in their own right; when they are its alone, iff there are none |
| ObjcProgram.MethodLost | runtime/nextstep/ns_objc.c:242 | a category whose second list holds a method that is not found after linking |
| MultiWord.Cpu.FlagsAdc | runtime/recomp16/cpu.h:430-447 | result and flags of the three-operand sum at 8, 16 and 32 bits |
| MultiWord.Cpu.FlagsSbb | runtime/recomp16/cpu.h:449-466 | result and flags of the three-operand difference |
| MultiWord.Cpu.BcdDaa | runtime/recomp16/cpu.h:479-496 | AL, CF and AF after DAA for every AL, CF and AF, written out, and SF, ZF and PF from the new AL |
| MultiWord.Cpu.BcdDas | runtime/recomp16/cpu.h:498-517 | the same for DAS, with the borrow out of AL - 6 |
| MultiWord.ChainAdds | runtime/recomp16/cpu.h:430-447 | adc along limbs of any number and width computes the sum of the numbers, with the last carry as the overflow |
| MultiWord.ChainSubtracts | runtime/recomp16/cpu.h:449-466 | sbb along limbs computes the difference, with the last borrow |
| MultiWord.SubUndoesAdd | runtime/recomp16/cpu.h:430-466 | subtracting what was added gives the limbs back and borrows exactly when the sum carried |
| MultiWord.DaaCorrects | runtime/recomp16/cpu.h:479-496 | adc and then daa on packed bytes is decimal addition, packed, with the hundred as the carry |
| MultiWord.DasCorrects | runtime/recomp16/cpu.h:498-517 | sbb and then das on packed bytes is decimal subtraction |
| MultiWord.DecimalChainAdds | runtime/recomp16/cpu.h:470-496 | adc and daa along packed numbers of any length add them in decimal |
| MultiWord.DecimalChainSubtracts | runtime/recomp16/cpu.h:470-517 | sbb and das along packed numbers subtract them in decimal |
| RegistryTree.FindPut | runtime/win32hle/advapi32.c:58-76 | a value is read back, under any case of the part of its name that fits the buffer, as last set, and no other value of the key changes |
| RegistryTree.FoundByOwnName | runtime/win32hle/advapi32.c:58-68 | a value is found under its own name iff the name fits the buffer |
| RegistryTree.SameLetters | runtime/win32hle/advapi32.c:48-61 | names are equal iff they agree letter by letter up to the case of A to Z |
| RegistryTree.FindPutAt | runtime/win32hle/advapi32.c:38-76 | the tree is a map from path and name: what was put is found there under any case, and nothing else changes; of a longer name the first 127 characters count |
| RegistryTree.PutAtShort | runtime/win32hle/advapi32.c:58-68 | no stored name is ever longer than its buffer |
| RegistryTree.PutAtKeeps | runtime/win32hle/advapi32.c:38-76 | setting a value keeps the names of siblings and of a key's values distinct iff the name fits the buffer or its first part is not set yet |
| RegistryTree.PutAllLast | runtime/win32hle/advapi32.c:69-76 | after many settings a value is what it was last set to |
| RegistryTree.LastOfKeys | runtime/win32hle/advapi32.c:118-130 | the order save_key visits a tree in has each value once, as it is |
| RegistryTree.RootFind | runtime/win32hle/advapi32.c:118-130 | the same for a whole root |
| RegistryText.PartsOfTail | runtime/win32hle/advapi32.c:38-57 | cutting a path where save_key joined names gives the names back |
| RegistryText.PartsAre | runtime/win32hle/advapi32.c:38-57 | a path is cut at runs of backslashes, which are dropped, and after each 127 other characters |
| RegistryText.NumberOfDigits | runtime/win32hle/advapi32.c:108-122 | the digit loop reads the digits of a number, in any base, back as the number |
| RegistryText.DwordBack | runtime/win32hle/advapi32.c:108 | strtoul with base 0 reads back what 0x%X printed |
| RegistryText.StrtoulReads | runtime/win32hle/advapi32.c:108 | decimal, octal and hexadecimal digits are read up to the first character that is none, saturated at 64 bits and cut to 32 |
| RegistryText.DigitsInPrint | runtime/win32hle/advapi32.c:122-123 | numbers are printed with capital hexadecimal digits, bytes as pairs of small ones |
| RegistryText.UnhexBack | runtime/win32hle/advapi32.c:109-114 | the byte pairs read back are the bytes printed, as far as the buffer goes |
| RegistryText.DatumBack | runtime/win32hle/advapi32.c:107-114 | type and data read from a value's kind and text are its normal form |
| RegistryText.NormalKeeps | runtime/win32hle/advapi32.c:118-123 | a value's normal form is itself iff it is a string ending at its only NUL, a 4-byte DWORD or BINARY that fits the buffer |
| RegistryText.RootBack | runtime/win32hle/advapi32.c:78-83 | each root's name is recognised as that root |
| RegistryText.RootOf | runtime/win32hle/advapi32.c:78-83 | in any case, a root is one of its six names or HKLM or HKCU, and nothing else |
| RegistryFile.ParseBack | runtime/win32hle/advapi32.c:92-116 | a clean line sets exactly the value it was written for, in its normal form |
| RegistryFile.LineInPrint | runtime/win32hle/advapi32.c:118-123 | a line is path\name=sz:text, =dword:0x and hexadecimal digits, or =hex: and byte pairs |
| RegistryFile.PathIsCut | runtime/win32hle/advapi32.c:125-129 | a subkey's lines carry its path, cut after 1023 characters |
| RegistryFile.DatumIs | runtime/win32hle/advapi32.c:107-114 | kind sz makes a terminated string, dword a little-endian number, every other kind bytes |
| RegistryFile.Cut | runtime/win32hle/advapi32.c:97 | a line is what is before the first line break or NUL |
| RegistryFile.Fgets | runtime/win32hle/advapi32.c:94-96 | a read ends behind the first line feed, after 2047 characters or at the end of the file |
| RegistryFile.Registry.Set | runtime/win32hle/advapi32.c:84-89 | afterwards the value is found at the names the path is cut into, under any case and the part of its name that fits, and every other lookup in every root gives what it gave |
| RegistryFile.Registry.Save | runtime/win32hle/advapi32.c:118-137 | the recursive writer prints the file's text |
| RegistryFile.Registry.Load | runtime/win32hle/advapi32.c:92-117 | the line loop applies every line of the file in order |
| RegistryFile.KeysSaved | runtime/win32hle/advapi32.c:118-130 | the writer prints one line for each setting of the tree |
| RegistryFile.LoadLines | runtime/win32hle/advapi32.c:92-117 | loading the lines of clean settings makes the settings |
| RegistryFile.RoundTrip | runtime/win32hle/advapi32.c:92-137 | loading a saved registry into an empty one gives every value at every path and name back in its normal form, and no others |
| Blit.BytesBack | runtime/win32hle/ddraw.c:440-450 | put_px stores back what get_px read, at 1 to 4 bytes |
| Blit.ValueIsLittle | runtime/win32hle/ddraw.c:440-443 | a pixel's number has its lowest byte first |
| Blit.BytesAreLow | runtime/win32hle/ddraw.c:444-450 | put_px stores the low bytes of the number |
| Blit.Clip | runtime/win32hle/ddraw.c:484-491 | the clipped offsets are exactly those on both surfaces |
| Blit.CopyRows | runtime/win32hle/ddraw.c:483-495 | the row copy makes every pixel what it is to become and leaves every other byte |
| Blit.ScalePixels | runtime/win32hle/ddraw.c:496-510 | so does the stretching, keying pixel loop |
| Blit.Blit | runtime/win32hle/ddraw.c:472-512 | whichever path is taken the picture is the one meant, from the source as it was before the first write; an empty rectangle changes nothing |
| Blit.OnePicture | runtime/win32hle/ddraw.c:483-510 | the meaning fixes every byte, so both paths give the same surface |
| Blit.PlainPix | runtime/win32hle/ddraw.c:496-510 | for an unkeyed same-size same-format copy the pixel loop's source pixel is the row copy's |
| Blit.PlainMoves | runtime/win32hle/ddraw.c:475-494 | a plain copy moves the source rectangle's pixels, also within one surface |
| Blit.PixelMeant | runtime/win32hle/ddraw.c:472-510 | every pixel after the copy, in the arguments of the call: stretched by quotients rounded down, clipped, keyed, or as it was |
| Win16Selectors.Cpu.AllocSelector | runtime/win16/cpu.h:680-700 | refused, or the block's selector with the table and cursors of the allocation |
| Win16Selectors.Cpu.Write8 | runtime/win16/cpu.h:187-189 | a byte written through one selector and offset is read back through every alias of its flat address, and through no other |
| Win16Selectors.TilesBound | runtime/win16/cpu.h:694-698 | the loop binds a tile for each 64 KB as far as there are selectors, and nothing else |
| Win16Selectors.RoomTest | runtime/win16/cpu.h:683 | the 32-bit test for room is the test meant iff the sum does not wrap or is still too big |
| Win16Selectors.Rounding | runtime/win16/cpu.h:680-682 | the heap's end is rounded up to 16, or to 0 if that wraps; a request for nothing is one for 16 bytes |
| Win16Selectors.RefusedIff | runtime/win16/cpu.h:683-684 | a request is refused iff no selector is left or the 32-bit end of its block is behind the heap's |
| Win16Selectors.Cpu.ReachedIsAddress | runtime/win16/cpu.h:187-189 | what is reached by stepping the selector is what the CPU addresses |
| Win16Selectors.StepKeeps | runtime/win16/cpu.h:680-700 | an allocation keeps every earlier block's tiles and keeps blocks apart |
| Win16Selectors.StepKeepsIff | runtime/win16/cpu.h:680-700 | a request does so iff it is refused or its 32-bit sums do not wrap |
| Win16Selectors.WrapIsServed | runtime/win16/cpu.h:683-685 | in every state with selectors left there is a wrapping request that is served and sets the heap cursor back |
| Win16Selectors.RunKeeps | runtime/win16/cpu.h:659-700 | so does every run of allocations from the start |
| Win16Selectors.AllReached | runtime/win16/cpu.h:680-700 | every byte off of a block is reached through selector sel + (off >> 16) iff the selectors lasted for all its tiles |
| Win16Selectors.BlocksApart | runtime/win16/cpu.h:680-700 | no byte belongs to two blocks and no selector to two blocks |

## Left out

- Flags: rotates, FK_NONE and FK_FCOM tuples, AF after logical operations, where the lifter captures shifts, the sign extension of narrow immediates, and bts, btr and btc.
- RepMovs.RecompRepMovs: copies that wrap at 2^32, in the addresses or in n * esz.
- Unwinding: points inside a prologue, XMM saves, PUSH_MACHFRAME, chained infos that restore the frame register, and images at RVAs that wrap.
- Throwing (64-bit): decoding FuncInfo from bytes, type-name matching, the funclet, the choice of the host's landing pad and the longjmp.
- Eh32: recognising a handler's FuncInfo, the copy of the thrown object, type names and their match (a given relation), funclets that throw, SEH frames and setjmp.
- Eh32.Guest.UnwindTo: takes unwind maps to fall, since the source can loop for ever on one that does not.
- Eh32.Guest.Dispatch: takes the chain to be finite with distinct live records, since the source loops for ever on a ring, and unwind maps to fall.
- Rasteriser: colour, depth and coverage arithmetic (an uninterpreted function of command and pixel), the texture cache, growth of the lists, and 32-bit overflow of height times band.
- RasterPool: a fragment is one step, and so is a flush that draws alone; pthread primitives have their documented meaning.
- Machine lock: slot recycling and the killer's clean-up of the dead thread's slot; mach_leave is one step under the lock.
- Arena.Arena.Resize: does not model a size that rounds to 0 or a block whose end wraps; GrowTestIsRight says what the wrapped test does.
- Arena: the block table is a sequence that methods reassign, not a shifted array.
- Pages: the header and the device variables of a saved state; a write fails only for lack of room.
- ObjC: reading class, category and method words out of sections (they are maps from addresses), class references, forwarding and +initialize, and the order of addresses of equal names in different sections.
- Selectors.Table.Search: needs a name that is present or a table with an empty slot, since the source loops for ever on a full one.
- Selectors.Table.Unique: the same.
- Selectors.Table.Sel: the same.
- ObjcLinking.Image.LinkCategories: takes category lists to be distinct and not yet linked, since linking one twice makes a ring.
- ObjcProgram.Init: takes superclass names to have no ring, since a lookup loops for ever on one.
- MultiWord: the flags word's other bits, AAA, AAS, AAM and AAD.
- Registry: the tree is a value that the registry object replaces, where the source extends linked lists in place; the recursive writer and the line loop are methods. Handles, deletion and enumeration are not modelled.
- RegistryFile.RoundTrip: keys without values are not in the file and do not come back; names with an equals sign, a backslash or a line break, text with a line break, and lines or paths longer than the buffers are not covered.
- RegistryFile.ParseBack: the same names, texts and lengths.
- RegistryFile.LoadLines: the same names, texts and lengths.
- RegistryText.Strtoul: leading blanks and signs are read as no digits; malformed hex pairs, for which the source reads a variable it has not set, count as 0.
- Blit: pixel sizes other than 1 to 4 bytes, coordinates that overflow 32 bits, and surfaces whose buffers overlap without being the same surface; fills, flips and palettes.
- Win16Selectors.TilesBound: blocks whose end wraps; StepKeepsIff says what such a request does.
- Win16Selectors.RunKeeps: runs with a request whose sums wrap; StepKeepsIff says why. The free list of the host's GlobalAlloc is not modelled.
- Inline assembly bridges, signal handlers, image mapping, and the DOS, Win32 and NeXTSTEP calls around these parts.
