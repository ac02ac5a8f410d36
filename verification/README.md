# RISCVlab, proved

A Dafny model of RISCVlab: a cycle-stepped five-stage RISC-V pipeline simulator with branch
prediction, a paged address space, a three-level cache over byte memory, and the ELF library
that feeds it. `dafny verify dfyconfig.toml` checks the whole project.

## What is modelled

**The pipeline.** `Machine.dfy` is the simulator's object: pipeline registers with bubble and
stall flags, forwarding flags, counters, mutated stage by stage. It is proved to compute
`Pipeline.Step` (`Pipeline.dfy`), where a latch is empty or full and one expression says what it
holds next. `Sequential.dfy` is the reference: an interpreter that finishes one instruction before
it starts the next. Both use the decoder, access sizes and memory functions of `Isa.dfy`; the
arithmetic unit and the branch comparator are arbitrary functions, and so is the decoder in the
theorems, which need only what `RiscvIsWellFormed` proves of the simulator's own.
`Refinement.dfy` has the relation between the two and what one cycle does to it,
`RefinementRuns.dfy` whole runs. `Observed.dfy` says what can be seen of a run and
`ObservedExact.dfy` when that is what the interpreter shows. The load forwarding of the memory
stage (src/riscvsim.cpp:893-910) does not ask whether a younger instruction has already supplied
the operand, as the two tests before it do, so refinement is false without a condition.
`RefinementExact` has the exact one in both directions, and `StaleExample.dfy` a three-instruction
program whose run exists and goes wrong. `Outcomes.dfy` compares how runs end: that the pipeline
stops when the interpreter does, its exits, its aborts, and the two cases in which it aborts where
the interpreter exits or goes on. `Counters.dfy` says what the simulator's statistics count.
`PipelineLaws.dfy` has what holds of every program, hazard or not. `WholeMachine.dfy` puts the
pipeline on the loaded, translated and cached memory. `Instructions.dfy` says in numbers what each
instruction does to the interpreter's state, `Encoding.dfy` that words assembled by the RISC-V
formats decode to what was assembled, and which do not.

**The predictors.** `Predictor.dfy` (object and specification), `PredictorBounds.dfy`
(misprediction bounds over unbounded runs) and `PredictionRuns.dfy` (the predictor inside the
pipeline: what it has learnt, and what each scheme costs a program).

**The caches.** `Storage.dfy` is a request to a chain of levels as a function on values,
`Coherence.dfy` its invariant, `Transparency.dfy` the theorem that the chain is flat memory,
`CacheLaws.dfy` counters, latency, ageing and victims of one level, `CacheLevels.dfy` of every level
of a chain, `CacheTimes.dfy` what each request takes and what the counters add up to, `Recency.dfy`
and `RecencyExample.dfy` which way is replaced and how that relates to recency of use,
`CacheObjects.dfy` the mutable levels and memory, proved against `Storage.Handle`.

**Address space and loader.** `BitMap.dfy`, `AddressSpace.dfy`, `VirtualMemory.dfy`, `Loader.dfy` and,
for pages and stack of a booted machine in numbers, `BootedMemory.dfy`.
`VirtualMemory.VirtualMemoryIsFlat` is what lets the pipeline model run on a flat map of bytes:
`Isa.LoadBytes` and `Isa.StoreBytes` are proved to be loads and stores through the translation and
the caches, with the same faults.

**ELF layout and notes.** `ElfOrder.dfy` (the order of the segments), `ElfLayout.dfy` (the passes
as functions), `ElfLayoutLaws.dfy` (what they guarantee), `ElfRanges.dfy` (what a segment's file size
covers), `ElfMemory.dfy` (its memory size, where its sections lie in memory, when it cannot be laid
out), `ElfFile.dfy` (the object), `ElfNotes.dfy` and `ElfNoteObjects.dfy` (note sections over the
growable buffer). `Words.dfy` and `Division.dfy` are shared arithmetic.

## Hypotheses

- Fetch-stable: no instruction word is overwritten by one of the three instructions before it, when
  it may already have been fetched. Other self-modifying code is covered.
- Stale read: instruction k loads register x, k + 1 overwrites x without reading it and is neither
  jalr nor ecall, k + 2 reads x, and the two values differ. It is visible if k + 2, given the loaded
  value, writes another result, accesses another address, stores other bytes or goes elsewhere. All
  but the last show in the log when k + 2 retires, that when k + 3 does (`ObservedExact.Exposed`).
- A trace covers the cycles that went through. A failed assertion ends it (`Abort`), as does the
  exit call (`Exit`); a wrong-path fetch that asserts ends it too.
- Predictor bounds: each branch is resolved before the next prediction in its bucket;
  `AdjustIsSaturate` says exactly when a single update is right without it, and `ApartIsCurrent` gives
  a condition on the pipeline's run under which it holds. Static schemes need none.
- A predictor address is not negative as a signed number, unless its bucket is 0: the program
  asserts that the index is in range.
- A segment ends a page or more before 2^64; on one that reaches into the last page the loader does
  not come to an end (`LastPageHangs`), and one that reaches beyond is malformed. Page numbers
  from 2^31 up are not excluded: narrowing their key makes the program use an entry that is not
  there, and the model stops.
- Appending to a section needs the 32-bit capacity of the new buffer to be enough, which it is below
  2^30 bytes.
- Cache requests move at least one byte and stay inside one line; a level has a positive number of
  entries and a positive set count dividing it.
- A layout does not wrap around if no addition to the file position passes 2^64; section 0 is the
  null section (the engine gives it no offset); null sections have size 0 where validate() is
  concerned.

## Where code and promise differ

- src/riscvsim.cpp:893-910: the missing guard above.
- src/riscvsim.cpp:123 with 484-487: the fetch runs ahead while an ecall is decoded, so an exit call
  whose next word is not mapped ends in an assertion instead of an exit (`ExitAheadAborts`,
  `ExitAtEndAborts`).
- src/riscvsim.cpp:123 and 418: a word fetched on a wrong guess is translated and decoded with the
  same assertions before it is squashed, so a jump or branch can end the program where it should go
  on (`AstrayAborts`, `JumpAtEndAborts`).
- src/riscvsim.cpp:301-306 tells the right shifts by a constant apart by all of funct7, whose lowest
  bit belongs to the amount: srli by 32 or more is taken for srai (`LogicalShiftExact`).
- src/riscvsim.cpp:319-357 has no case for multiplications and divisions, whose words are taken for
  others; the arithmetic unit's cases for four of them are never reached (`MultiplyExact`,
  `NeverMultiplies`).
- src/elfio/elfio.hpp:740-751 gives a section behind a NOBITS one an address inside it, unless an
  address was set (`OverlapsBlank`).
- src/elfio/elfio.hpp:268-269 tests a bit of the section type where it means the type NOBITS, so
  overlaps of REL, DYNSYM, INIT_ARRAY and other types with that bit go unreported
  (`ReportedExactly`, `ValidatorMisses`).
- src/elfio/elfio_note.hpp:115-121 writes no descriptor when none is given but still records its
  size; such a note does not read back and sets later positions off (`NotesRoundTrip`,
  `IndexAgrees`).
- src/elfio/elfio_note.hpp:79-82 adds the sizes of a note in 32 bits, so a sum that wraps around passes
  the guard and the descriptor lies outside the section (`GuardWraps`).
- src/elfio/elfio_note.hpp:67 compares a note's index with the section's size in bytes, so every
  section with a note has an index that passes and lies outside the index of notes (`GetNote`,
  `GuardTooWeak`).
- src/cache.cc:279-286 does not make an entry younger when it is hit, so the policy called LRU is
  LRU only for one way to a set (`LRUExact`, `EvictsMostRecent`); `VictimExact` says what it is
  instead, `HitDoesNotSave` when the way just used is the next to go.
- src/elfio/elfio.hpp:684-755 moves the file position over padding in front of a NOBITS section
  without counting it in the segment's file size, whose range then ends before the last section does
  (`RangeMisses`, `RangeExact`).
- src/machine.cpp:160 narrows the page number of a new entry to an int (`KeyOf`, `MapPageFails`).
- The bitmap has one page more than memory; the translation rejects that page
  (`AddressSpace.Translate`).

## Model

| member | source | states |
|---|---|---|
| ObservedExact.RefinementExact | src/machine.cpp:300-365 | Main result. For every fetch-stable program, every prediction scheme and every run that never stops: what can be seen of the pipeline (the log of retired instructions with the results they write, the addresses they access and the bytes they store, the registers, the memory) is for ever that of the one-instruction-at-a-time interpreter if and only if the program has no visible stale read: load x; overwrite x without reading it; read x, where the loaded value makes the reader write, access or store something else or go elsewhere |
| ObservedExact.ObservedExactly | src/riscvsim.cpp:114-1005 | The same for a run of any n cycles: log, registers and memory are those of the interpreter after as many instructions if and only if no retired instruction exposes a stale read; and the log alone already decides it |
| ObservedExact.RetirementPrefix | src/machine.cpp:300-365 | With conditions on the first c instructions only: as long as no more than c have retired, log, registers and memory are those of the interpreter, whatever follows |
| Refinement.HarmlessReader | src/riscvsim.cpp:945-966 | A stale reader without a target that is no load, store, branch or jalr is not visible |
| RefinementRuns.AgreementExact | src/riscvsim.cpp:114-1005 | For a run of any n cycles: the simulation relation, which asks of every latch the effect the interpreter's instruction has, holds throughout if and only if no instruction that has left Decode completes a visible stale read |
| Outcomes.AbortsJustified | src/riscvsim.cpp:799-866 | Every abort of a state that matches is for a fault the interpreter gets to, if and only if neither an exit call it gets to instead is the newest instruction in flight nor the fetch is astray: off the program's path with nothing in flight that does not go on |
| Outcomes.AstrayAborts | src/riscvsim.cpp:714-737 | With the fetch astray the pipeline aborts if and only if the word guessed cannot be fetched or the word about to be squashed does not decode |
| Outcomes.JumpAtEndAborts | src/riscvsim.cpp:114-155 | A jump back in the last mapped word: the interpreter goes on at its target, the pipeline aborts in its second cycle |
| Outcomes.ExitAheadAborts | src/riscvsim.cpp:114-123 | With such an exit call in flight the pipeline aborts if and only if the word behind the call cannot be fetched |
| Outcomes.ExitAtEndAborts | src/riscvsim.cpp:484-487 | An exit call in the last mapped word: the interpreter exits, the pipeline aborts in its second cycle |
| Outcomes.ExitExact | src/riscvsim.cpp:945-966 | The pipeline exits if and only if it does not abort and the instruction in Writeback is where the interpreter exits |
| Outcomes.RetiredGo | src/riscvsim.cpp:799-966 | Of the first c instructions, fetch-stable and without visible stale reads, every one that retires is one the interpreter carries out and goes on from |
| Outcomes.StopsBy | src/machine.cpp:300-365 | If the interpreter exits or faults at instruction k and no visible stale read precedes, no pipeline run gets past 4 * k + 4 cycles or retires k |
| Outcomes.Stops | src/machine.cpp:300-365 | And the run that ends by then exists |
| Outcomes.RunEnds | src/machine.cpp:300-365 | A whole run without visible stale reads exits only where the interpreter exits, with its registers, and aborts as AbortsJustified says |
| RefinementRuns.GapsAlways | src/riscvsim.cpp:761-789 | Over a whole agreeing run, every bubble between neighbouring instructions is explained by a jump, a branch, an ecall or a load-use pair |
| RefinementRuns.StaleReadIsStale | src/riscvsim.cpp:889-910 | Whenever the reader of a stale-read triple leaves Decode it takes the stale value |
| RefinementRuns.VisibleReadShows | src/riscvsim.cpp:889-910 | Whenever the reader of a visible triple leaves Decode its wrong effect is in the pipeline |
| Refinement.PipelineRefines | src/machine.cpp:300-365 | Simulation theorem: without visible stale reads every state of a run that has not stopped matches the sequential run |
| Refinement.StepExact | src/riscvsim.cpp:501-1005 | One cycle keeps the simulation relation if and only if no stale operand leaving Decode changes what its instruction does |
| Refinement.ForwardingExact | src/riscvsim.cpp:868-910 | The value leaving Decode is the one the register will have once everything in flight has committed, unless the load forwarding without its guard replaces a younger result, and only then |
| Refinement.EExact | src/riscvsim.cpp:739-783 | The next instruction in E writes, accesses and stores what the interpreter's does if and only if no stale operand makes it differ, and goes where it goes under the like condition |
| Refinement.VisibleIsVisibleRead | src/riscvsim.cpp:893-910 | A stale operand that makes a difference in the pipeline comes from a visible stale read of the program |
| Refinement.StaleIsStaleRead | src/riscvsim.cpp:893-910 | A stale operand in the pipeline comes from a load, overwrite, read triple of the program |
| Refinement.FetchBound | src/riscvsim.cpp:114-155 | At most one instruction is fetched per cycle |
| StaleExample.StaleProgram | src/riscvsim.cpp:893-910 | lw x5; addi x5, x0, 7; add x6, x5, x0 is such a triple under the simulator's decoder and addition, and the interpreter leaves 7 in x6 |
| StaleExample.StaleProgramGoesWrong | src/riscvsim.cpp:893-910 | Under every prediction scheme there is a run of that program, seven cycles long, in which three instructions retire and x6 is 0; it is not what the interpreter shows |
| StaleExample.RiscvExists | src/riscvsim.cpp:157-499 | The instruction set it asks for exists |
| PipelineLaws.SuccessorFollows | src/riscvsim.cpp:617-630 | For every program, whatever is squashed, stalled or stale in between: the instruction that enters E after another is the one where that went with the operands it had |
| Pipeline.GuessIsSuccessor | src/riscvsim.cpp:136-155 | A guessed address that needs no correction is the successor's |
| Counters.CountersExact | src/machine.cpp:331-363 | Over an agreeing run the counters are sums over the program: load-use hazards are the neighbouring pairs of a load and a reader of its target, predictions the branches, control hazards the jalrs and the branches predicted wrong, fetch stalls one for each pair and three for each ecall; the branches decide as the interpreter's do wherever that makes a difference |
| Counters.CyclesExact | src/machine.cpp:331-363 | So the cycle count is a function of the interpreter's run and the predictions |
| PipelineLaws.CycleAccounting | src/machine.cpp:331-363 | After every cycle: cycles = instructions + ecalls + instructions in flight + 2 * control hazards + fetch stalls, for every program |
| PipelineLaws.EcallIsolation | src/riscvsim.cpp:912-917 | Whenever an ecall is in Writeback, D, E and M hold bubbles |
| PipelineLaws.SquashIsolation | src/riscvsim.cpp:714-737 | After a misprediction or jalr the memory stage sees that instruction, exactly two bubbles and then the instruction at its successor: nothing squashed gets there |
| PipelineLaws.NextRetirement | src/machine.cpp:331-356 | The next retirement is exactly as many cycles away as the latches say |
| PipelineLaws.FirstRetirement | src/machine.cpp:331-356 | The first instruction is in Writeback in the fifth cycle and not before |
| PipelineLaws.BoundedProgress | src/riscvsim.cpp:765-789 | Consecutive retirements are at most four cycles apart, whatever stalls and flushes happen |
| PipelineLaws.Throughput | src/machine.cpp:300-365 | n cycles retire at least (n - 4) / 4 instructions: no livelock |
| Pipeline.ShapeAlways | src/riscvsim.cpp:617-630 | Invariant of every reachable state of every program: an empty D latch means E is empty or an ecall, an ecall drains what is behind it, no load is directly followed by a reader of its target |
| Isa.RiscvIsWellFormed | src/riscvsim.cpp:157-499 | The decoder meets the demands the fetch stage and the hazard logic make of it, for any arithmetic unit and comparator |
| Machine.Machine.constructor | src/machine.cpp:264-287 | The machine enters its loop in an initial pipeline state with the loaded image, entry address, stack pointer and scheme |
| Machine.Machine.Fetch | src/riscvsim.cpp:114-155 | Reads the word at the predicted address, predicts, and fills the output register; false where an assertion fails |
| Machine.Machine.Decode | src/riscvsim.cpp:157-499 | The output register of Decode as a function of the D register and the register file; an ecall holds back the fetch |
| Machine.Machine.Resolve | src/riscvsim.cpp:714-737 | A branch is squashed exactly when mispredicted, the predictor is trained with the outcome, counters follow |
| Machine.Machine.ForwardE | src/riscvsim.cpp:739-759 | A result computed in E reaches the operands that want it |
| Machine.Machine.Interlock | src/riscvsim.cpp:761-789 | A load-use pair and an ecall hold back the stages behind them |
| Machine.Machine.Operate | src/riscvsim.cpp:515-797 | Execute on a live instruction: result, redirection, forwarding, interlock and training together |
| Machine.Machine.Execute | src/riscvsim.cpp:501-797 | The whole stage, bubble and stall cases included |
| Machine.Machine.ForwardM | src/riscvsim.cpp:868-887 | A result in M reaches the operands E has not supplied |
| Machine.Machine.ForwardLoad | src/riscvsim.cpp:889-910 | A loaded value reaches the operands whether or not E has supplied them |
| Machine.Machine.MemStage | src/riscvsim.cpp:799-943 | Load, store, forwarding and ecall drain; false exactly where the access faults |
| Machine.Machine.ForwardW | src/riscvsim.cpp:968-1001 | A result in W reaches the operands nothing younger supplied |
| Machine.Machine.Writeback | src/riscvsim.cpp:945-1005 | Register commit, system calls, forwarding and counters, and how the cycle ends |
| Machine.Machine.Transfer | src/machine.cpp:331-363 | The end-of-cycle register transfer with its counters |
| Machine.Machine.Stages | src/machine.cpp:307-311 | The five stages in program order end exactly as Pipeline.Step says and leave the registers steered as it says |
| Machine.Machine.Cycle | src/machine.cpp:300-365 | One flag-level cycle computes Pipeline.Step on the latched state and keeps the object valid |
| Machine.Machine.Run | src/machine.cpp:300-365 | The cycle loop yields a trace of Pipeline.Step, so every theorem about traces is about the object |
| Instructions.LoadLaw | src/riscvsim.cpp:827-849 | A load of n bytes leaves in its target the number those bytes mean: for lb, lh and lw the word whose signed value s has -2^(8n-1) <= s < 2^(8n-1) and is congruent to the bytes' value modulo 2^(8n), for lbu, lhu, lwu and ld the value itself; memory and other registers stay |
| Instructions.StoreLaw | src/riscvsim.cpp:851-864 | A store of n bytes that does not fault leaves there rs2 modulo 2^(8n) and every other byte and register as it was |
| Instructions.StoreThenLoad | src/riscvsim.cpp:827-864 | A store and a load of the same size at the same address: the target holds what was stored, sign-extended or plain |
| Instructions.FaultLaw | src/machine.cpp:126-151 | A load or store faults exactly where some byte is not mapped or the access crosses a line of 64 bytes, or the instruction itself cannot be fetched and decoded |
| Instructions.LinkLaw | src/riscvsim.cpp:617-670 | jal and jalr leave the address of the next word, pc + 4, in their target |
| Instructions.ReturnLaw | src/riscvsim.cpp:617-620 | A jalr through an unchanged link register goes to the word behind the call |
| Instructions.JumpLaw | src/riscvsim.cpp:617-620 | jal goes to pc + imm, jalr to rs1 + imm with the lowest bit cleared |
| Instructions.BranchLaw | src/riscvsim.cpp:644-668 | A branch goes to pc + imm or pc + 4, by what the comparator says of rs1 and rs2, and changes nothing else |
| Instructions.ComputeLaw | src/riscvsim.cpp:530-709 | Every other instruction puts what the arithmetic unit makes of its pc, rs1, rs2 and immediate into its target and changes nothing else |
| Instructions.CallLaw | src/riscvsim.cpp:1008-1047 | By register 17: 93 exits, 91 has no behaviour, 92 puts an input into register 10, anything else changes nothing |
| Encoding.RDecodes | src/riscvsim.cpp:319-357 | A register instruction assembled by the RISC-V format decodes to its name and registers |
| Encoding.IDecodes | src/riscvsim.cpp:283-317 | The same for instructions with a 12-bit immediate |
| Encoding.LoadDecodes | src/riscvsim.cpp:232-259 | The same for loads, whose target is the loaded one |
| Encoding.StoreDecodes | src/riscvsim.cpp:260-282 | The same for stores, the immediate in two parts |
| Encoding.BranchDecodes | src/riscvsim.cpp:92-99 | The same for branches, for every even offset of 13 bits |
| Encoding.UpperDecodes | src/riscvsim.cpp:80-83 | The same for lui and auipc, for every multiple of 4096 of 32 bits |
| Encoding.JumpDecodes | src/riscvsim.cpp:84-91 | The same for jal, for every even offset of 21 bits |
| Encoding.UndecodedExact | src/riscvsim.cpp:175-418 | The decoder gives up on a word exactly if its opcode is none of thirteen, or its funct3 one of those it has no case for |
| Encoding.CallDecodes | src/riscvsim.cpp:406-409 | The system call word decodes to a call |
| Encoding.NopDecodes | src/riscvsim.cpp:410-413 | Opcode 0 is a nop, whatever the other fields say |
| Encoding.LeftShiftDecodes | src/riscvsim.cpp:287-290 | Left shifts by a constant decode to themselves for every amount |
| Encoding.ArithmeticShiftDecodes | src/riscvsim.cpp:301-306 | srai and sraiw decode to themselves, the mark of the shift left in the immediate |
| Encoding.LogicalShiftExact | src/riscvsim.cpp:301-306 | srli decodes to itself exactly for amounts below 32; from 32 on it is taken for srai |
| Encoding.MultiplyExact | src/riscvsim.cpp:319-357 | What each multiplication or division is taken for: mul for sub, mulh for sll, div for xor, rem for or |
| Encoding.NeverMultiplies | src/riscvsim.cpp:533-568 | No word decodes to mul, mulh, div or rem: their cases in the arithmetic unit are never reached |
| Predictor.BranchPredictor.constructor | src/pred.cpp:20-29 | Counters and histories start at zero |
| Predictor.BranchPredictor.FindPattern | src/pred.cpp:49-54 | The linear search finds the masked history, always |
| Predictor.BranchPredictor.PredictAt | src/pred.cpp:36-56 | The prediction of the selected scheme, as the specification says |
| Predictor.BranchPredictor.UpdateAt | src/pred.cpp:58-142 | The update of the selected scheme changes the specification state accordingly |
| PredictorBounds.StaticMisses | src/pred.cpp:40-43 | Over any run and in every bucket: always predicting taken misses exactly the branches not taken, never predicting taken exactly those taken |
| PredictorBounds.BucketByBits | src/pred.cpp:38 | Two addresses share a bucket if and only if they agree in bits 2 to 5 |
| PredictorBounds.IndexedByBits | src/pred.cpp:38-39 | An address is accepted if and only if it is not negative or those bits are 0 |
| PredictorBounds.AdjustIsSaturate | src/pred.cpp:69-97 | The success-driven counter is a saturating up/down counter of outcomes if and only if the judged prediction is the counter's own |
| PredictorBounds.BimodalCounter | src/pred.cpp:69-97 | Over any interleaved run each bucket is a saturating counter of its own outcomes |
| PredictorBounds.BimodalBound | src/pred.cpp:45-47 | A bucket mispredicts at most 2 * min(taken, notTaken + 1) times over any run |
| PredictorBounds.HistoryIsLastFour | src/pred.cpp:99-113 | The masked history is the last four outcomes of the bucket |
| PredictorBounds.SelfAdjBound | src/pred.cpp:99-141 | A bucket whose outcomes follow any rule on the last four outcomes mispredicts at most 2 * 16 times over any run, twice per pattern the rule takes |
| PredictionRuns.LearnsInOrder | src/riscvsim.cpp:714-737 | In the pipeline: as long as the prediction each branch carries is the one the predictor would make when it is resolved, the predictor is where resolving the run's branches in order leaves it, and the counters are that run's mispredictions and its other branches |
| PredictionRuns.ApartIsCurrent | src/riscvsim.cpp:136-155 | Predictions are that current in every run in which neither of the two instructions behind a branch in E is a branch of the same bucket |
| PredictionRuns.BimodalRun | src/pred.cpp:69-97 | So the pipeline's misprediction counter under two-bit counters is at most the sum over the 16 buckets of 2 * min(taken, notTaken + 1) |
| PredictionRuns.SelfAdjRun | src/pred.cpp:99-141 | And under the two-level scheme at most 512, however long the run, if every bucket follows some rule on its last four outcomes |
| PredictionRuns.StaticGuess | src/pred.cpp:36-43 | Under a static scheme every branch in flight carries that scheme's answer, in every run of every program |
| PredictionRuns.StaticHazards | src/riscvsim.cpp:714-737 | Control hazards of an agreeing run under each static scheme, counted from the interpreter: the jalrs, and the branches that stay on the straight line where all are predicted taken, or that leave it where none is; exact unless some branch has the next word for its target, which can add one each |
| Transparency.RunTransparent | src/cache.cc:15-171 | Main result. For any number of levels and any write policies, every sequence of in-line requests to a coherent hierarchy returns what a flat memory returns and leaves what it leaves |
| Transparency.HandleCorrect | src/cache.cc:15-171 | One request keeps coherence; a read returns the bytes shown and changes none, a write changes exactly its bytes |
| Transparency.FreshCoherent | src/cache.cc:244-277 | Any freshly configured chain is coherent and shows the memory at its bottom |
| Transparency.FreshRun | src/cache.cc:244-277 | So any fresh chain over a memory serves every run like that memory |
| Transparency.EvictedReady | src/cache.cc:196-235 | Making room changes nothing that is seen, and an allocating miss then finds a free way |
| Transparency.VictimInSet | src/cache.cc:204-218 | The victim is a way of the requested set |
| Coherence.FlushExact | src/cache.cc:222-231 | The address rebuilt for a flush is the address of the block |
| Coherence.SetByModulo | src/cache.cc:21-24 | With a power of two for its set count a level puts block b into set b modulo that count, with the quotient for its tag |
| Coherence.LowBelow | src/cache.cc:181-194 | Every set number asked for is one the entries are numbered with, for set counts that are no power of two as well |
| Coherence.ReplaceLook | src/cache.cc:92-123 | Replacing or filling one entry changes the view of its block only |
| Coherence.DropLook | src/cache.cc:218-231 | Dropping an entry once its bytes are below changes no view |
| Coherence.LowerOnly | src/cache.cc:158-168 | Writing around a level changes its view by the bytes written |
| CacheLaws.RequestAccounting | src/cache.cc:15-171 | Lower accesses = fetches + allocating write misses + dirty flushes, and what counts as a fetch, for one request |
| CacheLaws.RunAccounting | src/cache.cc:15-171 | The same over any run; a write-back level fetches exactly as often as it misses |
| CacheLaws.Latency | src/cache.cc:41-168 | A request takes at most bus + hit + twice the bound of the level below |
| CacheLaws.ThreeLevelBound | src/machine.cpp:90-118 | The closed bound for L1, L2, LLC and memory |
| CacheTimes.TimeExact | src/cache.cc:41-168 | What a request takes, to the cycle: a hit bus + access, and the lower reply of a write-through write; a read miss bus and the lower reply for the block; an allocating write miss bus and both lower replies; a write that passes by the lower reply only; flushing a victim nothing |
| CacheTimes.MemoryTime | src/memory.cc:13-15 | At the bottom: bus + access, every request a hit |
| CacheTimes.DefaultTimes | src/machine.cpp:50-66 | With the program's default latencies a read hit in L1 takes 1 cycle and one that only hits in LLC takes 20 |
| CacheTimes.TimeAccounting | src/cache.cc:15-171 | Over any run: accesses, misses and replacements are counted once each, and the access time grows by (accesses - misses) * (bus + access) + (misses - writes passing by) * bus |
| CacheTimes.TimesEverywhere | src/cache.cc:15-171 | The same at every level of the chain, memory included, after any run at the top |
| CacheLevels.LowerRun | src/cache.cc:15-171 | What a level serves in line makes the level below serve a run in line, request by request the one forwarded to it |
| CacheLevels.EveryLevel | src/cache.cc:15-171 | After any run at the top every level of the chain is as its own run of in-line requests leaves it |
| CacheLevels.AccountingEverywhere | src/cache.cc:15-171 | The accounting at every level of the chain after any run at the top; write-back levels fetch exactly as often as they miss |
| CacheLevels.AgesEverywhere | src/cache.cc:279-286 | The age law at every level of the chain after any run at the top |
| CacheLaws.AgeLawAlways | src/cache.cc:279-286 | After any run a valid entry's stamp is min(99999, hits and fills of other entries since its fill) |
| Recency.VictimExact | src/cache.cc:204-217 | Below the cap the victim of a full set is the first way for which the time of its fill and its own hits since are least together |
| Recency.HitDoesNotSave | src/cache.cc:41-83 | A way that has just been hit is the next victim if and only if it is first by that measure even with the one step the hit adds |
| Recency.UnhitIsLRU | src/cache.cc:204-217 | While no way of a set has been hit since its fill, the victim is the least recently used way |
| Recency.AgeSplits | src/cache.cc:279-286 | An age is the touches since the last use plus those between fill and last use: the second part is what makes the policy differ from LRU |
| Recency.SaturatedVictim | src/cache.cc:204-217 | At the cap of 99999 the first way that reached it goes, however recently it was used |
| RecencyExample.EvictsMostRecent | src/cache.cc:204-217 | On every fresh level with two or more ways, of any set count: read a block into each way and the first block again, and the next victim of that set is the way just read, every other way having gone unused for longer |
| RecencyExample.LRUExact | src/cache.cc:196-235 | A fresh level over a memory with a block for each way replaces the least recently used way after every run if and only if its sets have one way |
| CacheLaws.VictimIsFirstOldest | src/cache.cc:204-217 | The victim is the first entry of maximal age in its set |
| CacheLaws.EvictsOnlyWhenFull | src/cache.cc:196-203 | Something is evicted if and only if every way of the set is valid |
| Storage.FirstHit | src/cache.cc:181-194 | The first valid entry of the set with the tag, or none |
| Storage.FirstFree | src/cache.cc:200-203 | The first invalid entry of the set, or none |
| CacheObjects.MainMemory.constructor | src/memory.cc:27-32 | Memory starts as zeros |
| CacheObjects.MainMemory.HandleRequest | src/memory.cc:3-25 | The copying loops do what the value model says, counters included |
| CacheObjects.CacheLevel.OverCache | src/cache.cc:244-277 | A new level is fresh: invalid entries numbered round robin |
| CacheObjects.CacheLevel.OverMemory | src/cache.cc:244-277 | The same over the memory |
| CacheObjects.CacheLevel.FindVictim | src/cache.cc:204-217 | The two scans find the victim of the value model |
| CacheObjects.CacheLevel.ReplaceAlgorithm | src/cache.cc:196-235 | Eviction in place, dirty flush included |
| CacheObjects.CacheLevel.Aging | src/cache.cc:279-286 | The loop ages every entry but one |
| CacheObjects.CacheLevel.OnHit | src/cache.cc:41-83 | A hit in place: copy, write-through or write-back, ageing, time |
| CacheObjects.CacheLevel.OnReadMiss | src/cache.cc:91-123 | A read miss in place |
| CacheObjects.CacheLevel.OnWriteMiss | src/cache.cc:125-157 | A write-allocate miss in place: bytes down, block up |
| CacheObjects.CacheLevel.HandleRequest | src/cache.cc:15-171 | One request on the mutable chain is Storage.Handle on its value and keeps it coherent |
| BitMap.OneBit | src/bitmap.cpp:15-48 | Setting or clearing one bit of a word changes that bit only |
| BitMap.OneNumber | src/bitmap.cpp:15-48 | In packed words exactly one number joins or leaves |
| BitMap.BitMap.FindSet | src/bitmap.cpp:15-26 | Takes the least number not in the set, and fails only when there is none |
| BitMap.BitMap.Exist | src/bitmap.cpp:28-36 | Membership |
| BitMap.BitMap.Clear | src/bitmap.cpp:38-48 | Removes one number and reports whether it was there |
| BitMap.BitMap.Empty | src/bitmap.cpp:50-53 | Leaves the empty set |
| AddressSpace.LeastFree | src/bitmap.cpp:15-26 | The least free page |
| AddressSpace.MapPageOk | src/machine.cpp:153-174 | Mapping a page keeps translation injective and every mapping there was |
| AddressSpace.MapPageFails | src/machine.cpp:153-174 | Mapping fails if and only if the page has no physical one and either every page the bitmap knows is taken or narrowing changes its number |
| AddressSpace.TranslateInjective | src/machine.cpp:176-199 | Distinct mapped addresses have distinct physical addresses |
| AddressSpace.MapAllOk | src/machine.cpp:153-174 | Over every allocation run: exactly the pages asked for are mapped, existing translations never change, injectivity is kept |
| AddressSpace.TranslationsKept | src/machine.cpp:153-199 | No allocation run changes a translation there was |
| AddressSpace.PageTable.AllocPageEntry | src/machine.cpp:153-161 | The entry is added, under the page number narrowed to an int and widened again, unless the page or that key is there |
| AddressSpace.PageTable.AllocPysPage | src/machine.cpp:163-174 | The entry gets the least free page, once |
| AddressSpace.PageTable.TranslateAddr | src/machine.cpp:176-199 | The translation, None where it asserts |
| VirtualMemory.VirtualMemoryIsFlat | src/machine.cpp:126-199 | Main result. Over every run of loads and stores of any sizes, translation and caches together fault, deliver and store exactly as a flat map of bytes |
| VirtualMemory.ServeSame | src/machine.cpp:126-151 | The same for one access, and the hierarchy goes on representing the map |
| VirtualMemory.AccessFits | src/cache.cc:27-30 | What translation and cache assert of an access is what the flat model demands: mapped, and inside one line |
| VirtualMemory.SamePage | src/machine.cpp:176-199 | An access inside a line never leaves its page |
| VirtualMemory.StoreIsBytes | src/riscvsim.cpp:853-864 | A store writes the low bytes of the value, least significant first, and nothing else |
| Loader.LoaderImage | src/machine.cpp:216-246 | After loading, every mapped byte is the file byte of the last segment that has one there, and zero elsewhere |
| Loader.LoaderExact | src/machine.cpp:216-246 | Loading succeeds if and only if the segments touch no more pages than the bitmap knows, these are numbered below 2^31, and the file bytes lie in pages mapped by the time they are copied, other than the one beyond memory; then exactly the touched pages are mapped, in order of first need |
| Loader.PagesOfExact | src/machine.cpp:216-233 | The pages in question are those a segment touches, each once |
| Loader.FilesFit | src/machine.cpp:239-244 | Segments no larger in the file than in memory that fit in memory together have their file bytes in such pages |
| Loader.PagesExact | src/machine.cpp:222-225 | The pages counted for a segment are those holding a byte of it, and for an empty segment the page its address lies inside, if any |
| Loader.BootRepresents | src/machine.cpp:264-275 | Loaded program, stack and any fresh chain of caches represent the flat image |
| Loader.BootedRun | src/machine.cpp:264-275 | So every run of accesses of the booted machine delivers what the flat image would |
| Loader.BootExact | src/machine.cpp:251-262 | The machine boots if and only if program and stack have no more pages than the bitmap knows and the loader's other two conditions hold; then exactly the addresses of the pages that lie in memory translate |
| BootedMemory.BootedPages | src/machine.cpp:251-262 | By numbers: the machine boots if and only if the pages the segments overlap and pages 0x7FFF7 to 0x80001 are at most 1025 together, all below 2^31, and file bytes lie in memory pages mapped so far; it then maps those pages and no others |
| BootedMemory.BootedAddresses | src/machine.cpp:251-262 | With at most 1024 pages the addresses that translate are those in one of them |
| BootedMemory.BootedPlaces | src/machine.cpp:166-199 | Physical pages are handed out in the order in which pages are first asked for |
| BootedMemory.StackReads | src/machine.cpp:251-262 | A program whose segments hold their file bytes and fit in memory with the stack boots, and every address from 0x7FFF_7000 up to 0x8000_2000 is there, with the program's file byte or zero |
| BootedMemory.FileByteExact | src/machine.cpp:232-246 | The file byte at an address is that of the last segment with file bytes there |
| WholeMachine.RunOnFlat | src/riscvsim.cpp:114-866 | The fetches, loads and stores of any pipeline run, made in order on the flat map, deliver what the run took and leave its memory |
| WholeMachine.RunOnCaches | src/machine.cpp:126-199 | Main result. Made through translation and any coherent caches instead, they all succeed and deliver the same, the hierarchy represents the memory of the last state, and the next fetch faults there exactly when it does in the model |
| WholeMachine.BootedPipeline | src/machine.cpp:264-365 | Loader, stack, any fresh chain of caches and the pipeline together: the run on the program's image is the run of the machine |
| Loader.LastPageHangs | src/machine.cpp:222-225 | For a segment that reaches into the last page of the address space the page-count loop never ends: its condition holds for every count |
| Loader.ProgramLoader.CountPages | src/machine.cpp:222-225 | The page-count loop ends with the exact number of pages |
| Loader.ProgramLoader.MapPages | src/machine.cpp:230-233 | The mapping loop is the allocation run of the model |
| Loader.ProgramLoader.Copy | src/machine.cpp:235-244 | The copying loop writes the file bytes through the translation |
| Loader.ProgramLoader.ReadUserProg | src/machine.cpp:216-246 | The segment loop on the objects is the loader function |
| Loader.ProgramLoader.StackAllocate | src/machine.cpp:251-262 | Maps the page above the stack top, its page and the nine below |
| ElfOrder.GetOrderedSegments | src/elfio/elfio.hpp:552-592 | The rotating worklist ends; its result is a permutation in which no segment is properly included in a later one |
| ElfOrder.RotateForward | src/elfio/elfio.hpp:574-589 | Why it ends: pushing a segment back brings the first longest section list one place forward |
| ElfOrder.ZeroFirst | src/elfio/elfio.hpp:561-572 | The swap loop is a permutation that leaves only zero offsets before a segment set to offset zero |
| ElfOrder.FirstIncluding | src/elfio/elfio.hpp:578-583 | The search for a waiting segment that includes this one |
| ElfOrder.IncludesIsInclusion | src/elfio/elfio.hpp:536-549 | On sorted section lists the walk of std::includes decides inclusion with multiplicity |
| ElfOrder.SubsequenceIsProper | src/elfio/elfio.hpp:536-549 | On sorted section lists the whole test is proper inclusion |
| ElfLayoutLaws.LayoutIsClean | src/elfio/elfio.hpp:596-781 | Main result. A layout that succeeds without wrapping around keeps every size and type, and leaves sections with bytes in the file pairwise disjoint between the segment table and the 4-aligned section table, loose sections aligned |
| ElfLayoutLaws.CleanValidates | src/elfio/elfio.hpp:260-286 | After it validate() reports nothing |
| ElfLayoutLaws.FileCongruent | src/elfio/elfio.hpp:684-756 | A section the engine ties to an address is as far from its segment's start in the file as in memory, modulo 2^64, through all passes |
| ElfLayoutLaws.SectionsCongruent | src/elfio/elfio.hpp:684-756 | The same after the segment pass, for the first segment in the order that holds the section |
| ElfLayoutLaws.StartAligned | src/elfio/elfio.hpp:668-678 | A segment with new sections starts less than one alignment behind the position, and at a place congruent to its address modulo its alignment if and only if the gap does not overflow; for alignments up to 2^63 it never does |
| ElfRanges.RangeExact | src/elfio/elfio.hpp:684-768 | The file range of a segment whose sections are all new covers them if and only if no more padding is lost before the last one with file bytes than empty sections behind it pad; with only NOBITS and null sections behind it, if and only if no NOBITS section without an address stands before it at a position its alignment does not divide |
| ElfRanges.RangeMisses | src/elfio/elfio.hpp:684-768 | A byte, a blank section aligned to 16, a byte: the range has two bytes and ends fourteen before the last section starts |
| ElfRanges.SharedRange | src/elfio/elfio.hpp:684-700 | A segment whose sections are all placed already moves nothing and its range ends where the last of them in the file ends |
| ElfRanges.SharedExact | src/elfio/elfio.hpp:684-700 | So it covers them if and only if none starts before the first or ends behind that one |
| ElfMemory.MemoryExact | src/elfio/elfio.hpp:729-766 | The memory size of a finished segment whose sections are all new is the larger of the one it had and, in 64 bits, the way from its start to the position behind it plus the NOBITS sections in memory less what is not loaded; nothing is that if every section has ALLOC and none is a NOBITS thread-local one outside PT_TLS |
| ElfMemory.MemoryHolds | src/elfio/elfio.hpp:729-749 | Then every section without an address of its own gets one inside [vaddr, vaddr + memory size), to its last byte |
| ElfMemory.PlacedAligned | src/elfio/elfio.hpp:710-749 | A section without an address gets the next position its alignment divides, and the address as far from the segment's as that is from the segment's start |
| ElfMemory.OverlapsBlank | src/elfio/elfio.hpp:740-751 | A section behind a NOBITS one gets an address only its padding away from where that begins |
| ElfMemory.StuckExact | src/elfio/elfio.hpp:693-707 | A segment can be laid out if and only if no new section with file bytes and an address of its own lies behind the position when its turn comes |
| ElfMemory.SegmentStarts | src/elfio/elfio.hpp:648-682 | The segment of the segment table is the table; one that begins with the null section begins with the file and counts all in front; one whose first section is placed begins there; another empty one is nothing at the position |
| ElfMemory.SharedMemory | src/elfio/elfio.hpp:720-733 | A segment whose sections are all placed and loaded, all but the last with file bytes, ends in memory where its last section does |
| ElfMemory.DataAndBssSizes | src/elfio/elfio.hpp:729-766 | 0x10 bytes of data and 0x20 blank ones take 0x10 bytes of the file and 0x30 of memory |
| ElfMemory.FileSizeExact | src/elfio/elfio.hpp:735-768 | The file size of a finished segment whose sections are all new is the way from its start to the position behind it less the uncounted padding |
| ElfMemory.SegmentRange | src/elfio/elfio.hpp:758-768 | The condition of RangeExact for the finished segment's offset and file size |
| ElfMemory.SharedSegmentRange | src/elfio/elfio.hpp:680-768 | And that of SharedExact |
| ElfLayoutLaws.LargestAlignment | src/elfio/elfio.hpp:623-633 | The alignment a segment is laid out with is the largest among its own and those of its sections |
| ElfLayoutLaws.LaySegmentsTidy | src/elfio/elfio.hpp:637-770 | The segment pass generates exactly the sections the segments hold, each once and for good, without overlap |
| ElfLayoutLaws.LayRestTidy | src/elfio/elfio.hpp:596-619 | The pass over the other sections adds them behind everything placed |
| ElfLayoutLaws.LooseGapPads | src/elfio/elfio.hpp:602-606 | The padding reaches a multiple of the alignment |
| ElfLayoutLaws.ClashIsOverlap | src/elfio/elfio.hpp:260-286 | For sections ending below 2^64 the four tests of validate() are interval overlap |
| ElfLayoutLaws.ReportedExactly | src/elfio/elfio.hpp:260-286 | validate() reports an overlap of two sections with file bytes if and only if neither type has the NOBITS bit and neither offset is zero |
| ElfLayoutLaws.ValidatorMisses | src/elfio/elfio.hpp:260-286 | Two dynamic symbol tables in one place go unreported |
| ElfFile.ElfFile.CalcSegmentAlignment | src/elfio/elfio.hpp:623-633 | Each segment's alignment becomes the largest among its own and those of its sections, in place |
| ElfFile.ElfFile.PlaceSection | src/elfio/elfio.hpp:684-755 | One section of a segment: padding, sizes, address, offset, position |
| ElfFile.ElfFile.StartSegment | src/elfio/elfio.hpp:644-682 | Where a segment starts, by the special cases |
| ElfFile.ElfFile.LayoutSegment | src/elfio/elfio.hpp:643-768 | One segment, in place |
| ElfFile.ElfFile.LayoutSegments | src/elfio/elfio.hpp:637-771 | All segments in an order the worklist finds; false exactly where an address lies behind the position |
| ElfFile.ElfFile.IsSectionWithoutSegment | src/elfio/elfio.hpp:520-533 | Whether no segment holds the section |
| ElfFile.ElfFile.LayoutSectionsWithoutSegments | src/elfio/elfio.hpp:596-619 | The other sections, in place |
| ElfFile.ElfFile.LayoutFile | src/elfio/elfio.hpp:149-176 | The passes together, alignment included: the layout function of the model, and the overlap guarantee on the object |
| ElfFile.ElfFile.Validate | src/elfio/elfio.hpp:260-286 | Nothing if and only if no pair clashes; otherwise the first clashing pair |
| ElfNotes.NotesRoundTrip | src/elfio/elfio_note.hpp:60-124 | Main result. For every sequence of additions to an empty section a note reads back with its type, name and descriptor if and only if its descriptor was given or is empty |
| ElfNotes.IndexAgrees | src/elfio/elfio_note.hpp:130-156 | A fresh parse finds the positions add_note kept if and only if every note but the last was added with its descriptor, or with a size that rounds to none |
| ElfNotes.NoteReadsBack | src/elfio/elfio_note.hpp:60-92 | The same exact condition for one note wherever it lies |
| ElfNotes.NoteLayout | src/elfio/elfio_note.hpp:96-123 | What stands where in a note: the size of the name with its zero, the size of the descriptor and the type as words, the name, its zero, and the descriptor at a multiple of four |
| ElfNotes.NoteLength | src/elfio/elfio_note.hpp:96-123 | Its length: 12, name and zero rounded up to a multiple of four, and the descriptor rounded up if one was given |
| ElfNotes.WordBytes | src/elfio/elfio_note.hpp:96-107 | A word's lowest byte comes first, or last in a big-endian file |
| ElfNotes.GuardWraps | src/elfio/elfio_note.hpp:76-92 | A note is rejected if and only if its name, or its sizes added in 32 bits, exceed what is left of the section; sizes whose sum wraps around to a small number pass, and the read goes beyond the section |
| ElfNotes.EncodeDecode | src/elfio/elfio_note.hpp:96-107 | Words survive the file's byte order |
| ElfNoteObjects.OneMoreNote | src/elfio/elfio_note.hpp:122-123 | One more note: its bytes at the end, its position the size before |
| ElfNoteObjects.SectionData.AppendData | src/elfio/elfio_section.hpp:185-210 | Appending keeps the contents across regrowth to twice the capacity and the new bytes together, computed in 32 bits |
| ElfNoteObjects.SectionData.HoldsBelow | src/elfio/elfio_section.hpp:193-194 | Up to 2^30 bytes the new buffer is large enough |
| ElfNoteObjects.SectionData.HoldsExact | src/elfio/elfio_section.hpp:193-194 | A new buffer is large enough if its bytes number less than 2^31 and otherwise exactly if what twice that leaves after wrapping around is |
| ElfNoteObjects.SectionData.SetData | src/elfio/elfio_section.hpp:156-175 | The contents become the given bytes |
| ElfNoteObjects.NoteSection.constructor | src/elfio/elfio_note.hpp:46-50 | The index is that of a parse |
| ElfNoteObjects.NoteSection.ProcessSection | src/elfio/elfio_note.hpp:130-156 | The parsing loop computes the parse of the model |
| ElfNoteObjects.NoteSection.AddNote | src/elfio/elfio_note.hpp:96-124 | Appends the note's bytes and keeps section and index those of a sequence of additions |
| ElfNoteObjects.NoteSection.GetNote | src/elfio/elfio_note.hpp:60-92 | For every index: it leaves the index of notes if and only if it lies from the number of notes up to the section's size in bytes; from there it is rejected, and below it delivers what was added, for any section that is a sequence of additions |
| ElfNoteObjects.GuardTooWeak | src/elfio/elfio_note.hpp:67-71 | The number of notes is such an index exactly if there is a note at all |

## Left out

- Machine.Machine.Cycle: memory is a flat map, not the cache objects themselves; `WholeMachine` proves what the same run does on translation and caches. The cycle's tick count, which the cache latencies feed, is left out.
- Machine.Machine.Writeback: system calls that print change nothing, 92 reads an integer from an oracle, 93 halts; 91 prints through an uninitialised pointer and is treated as an abort.
- Machine.Machine.Operate: the arithmetic unit and the comparator are arbitrary functions; their agreement with the RISC-V standard is not claimed. `Instructions.ComputeLaw` and `BranchLaw` say what they are given and what becomes of what they return.
- Machine.Machine.Decode: sign extension of a 32-bit immediate (src/riscvsim.cpp:29-34, len 31) is undefined in C++; the mathematical extension is used.
- ElfLayoutLaws.LayoutIsClean: says nothing of layouts in which the position wraps around 2^64.
- ElfFile.ElfFile.LayoutFile: the 64-bit file class only; setters of the 32-bit class truncate.
- ElfNoteObjects.SectionData.AppendData: allocation failure is not modelled, nor is a buffer whose 32-bit capacity has wrapped around to less than its contents.
- ElfNoteObjects.NoteSection.GetNote: what an access outside the index or the section yields is not modelled, only that it happens.
- ElfRanges.RangeExact: segments of which some sections are new and some placed before are left out; for all new and all placed there is an exact condition. ElfMemory.MemoryExact and SharedMemory are of those two kinds too.
- The dataHazard counter: it depends on fields the program never initialises.
- Aliasing of cache levels: a chain shares nothing between levels; cache lines and transferred buffers are sequences stored in the arrays and fields, not arrays of their own.
- Sections and segments of a file are records in sequences the file object reassigns, not objects of their own.
- Console output, single stepping, the performance configuration file, the command line and clock statistics: input and output only.
- ELF reading and writing, dumps, symbol, relocation and dynamic accessors, header getters and setters: plumbing.
- Prefetching, bypass and partitioning of the caches: empty in the program.
