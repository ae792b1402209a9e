# Verified model of Dobby's arm64 hook engine, its containers and a thread pool

The repository is an Android app around a vendored copy of Dobby, an inline-hook engine.  This
project models the hard parts of that code in Dafny and proves what they are for.  Check everything
with `dafny verify dfyconfig.toml`.

- **Relocation** (`BitFields`, `A64`, `Encoder`, `Assembler`, `Relocation`, `Simulation`,
  `Preservation`, `Domain`).  `relo_relocate` is a small binary translator: it re-emits PC-relative
  A64 words as position-independent sequences with a literal pool.  `A64` is a small machine with
  registers, flags, stack pointer, memory and pc, after sections C4.1 and C6.2 of the Arm Architecture
  Reference Manual (DDI 0487); the main theorem is semantic preservation on that machine.
- **Trampolines and hooks** (`Trampoline`, `Hook`, `Registry`, `LiveHooks`).  The words patched over a
  function reach their target; a hook works end to end, also in the midst of any run of other hooks and
  destroys; such runs restore memory.
- **Closure bridge** (`ClosureBridge`).  Two emitted programs that save and restore a register
  context around a handler are a context switch.
- **Containers** (`UnorderedMap`, `Buffer`).  tinystl's hash map refines a finite map for every hash
  function; its buffer's insertion is right for ranges of the buffer itself.
- **Memory** (`MemoryAllocator`).  Bump arenas, first fit and the window search.
- **Thread pool** (`ThreadPool`).  Workers, clients and the destructor as interleaved steps.
- **Export trie** (`ExportTrie`).  The byte-level walk agrees with the symbol map it encodes.

Words and addresses are integers with explicit wrap-around; `|` of disjoint fields is written `+`.
The machine's memory is viewed as 32-bit words, the granularity of every fetch, load and store
involved.  Words that are none of the modelled instructions act through an arbitrary function, over
which the theorems quantify.  The operating system's answers (fresh pages, region listing, fixed
mappings, permissions) are parameters.

The domain of the relocation theorem (`InDomain`) is a condition on each executed word in the state it
is executed in: B, BL, ADR and ADRP; 64-bit LDR (literal), and the other implemented literal loads when
their image happens to be right; B.cond with conditions 0 to 13; CBZ/CBNZ and TBZ/TBNZ of registers
other than x17; register branches not through x17; and every other word that in that state neither
depends on x17 nor reads or writes the patched words or the image, and whose loads and stores are at
word addresses.  `Domain` shows that loads, stores and arithmetic meet it whenever their addresses do,
and with them the usual function prologues.

Where the code falls short of what it is for, the model keeps the code and states exactly when:

- the 32-bit literal load is re-emitted as a 64-bit load (`WordLiteralExactly`), and the S and D loads
  as loads of a general register (`SimdLiteralExactly`, `LiteralsThatFail`);
- conditions 14 and 15 are not inverted by flipping a bit (`ConditionInvertedExactly`,
  `CondBranchExactly`, `AlwaysBranchFalls`), and words with top byte 0x55 are taken for conditional
  branches (`ClassesAgree`);
- the adrp trampoline misses over a page distance of +2^32, which its guard allows
  (`NormalTrampolineLands`, `NormalTrampolineCanMiss`);
- the load of a label that is already bound does not encode its distance (`BoundLoadExactly`); no
  modelled caller does this;
- `allocateExecBlock` loses the size's high bits when rounding up passes 32 bits
  (`GrowthFailsExactly`, `GrowthCanFail`);
- near allocation finds nothing when the window around the address wraps around the address space, as
  for a function in the first 2^27 bytes (`NearStartExactly`, `WrappedWindowFindsNothing`);
- a near arena is mapped over the next region's first page when the block ends exactly there
  (`AllocateNearBlock`, `NearArenaClashes`);
- overlapping hooks destroyed in the wrong order leave stale words (`OutOfOrderExactly`,
  `OutOfOrderDoesNotRestore`);
- a self-insertion that straddles the insertion point repeats its head (`SelfInsertExactly`,
  `SelfInsertCanRepeat`);
- more than 128 nodes on a trie path overrun the walk's array (`WalkAgrees`, `LongPathOverruns`), and
  edges that are prefixes of others hide symbols (`UntidyEdgesHideSymbols`).

## Model

| member | source | states |
|---|---|---|
| `Preservation.RelocationPreservesMeaning` | app/src/main/cpp/Dobby/source/InstructionRelocation/arm64/InstructionRelocationARM64.cc:151-344 | For every block that the relocator accepts, with or without the jump at its end, every start word and every run whose executed words are in the domain in the state they are executed in: from agreeing states the image runs inside its own code until the original takes a branch or falls off the block, and is then at the same absolute address (without the jump, behind the last image) with equal memory outside the code and equal registers except x17; after a link x30 is the image of the original return address |
| `Preservation.SimulateWord` | app/src/main/cpp/Dobby/source/InstructionRelocation/arm64/InstructionRelocationARM64.cc:173-321 | One word of any class, loads and stores included: the emitted sequence simulates the word from every pair of agreeing states in which the word is in the domain |
| `Preservation.SimulateConditional` | app/src/main/cpp/Dobby/source/InstructionRelocation/arm64/InstructionRelocationARM64.cc:236-316 | The inverted branch over ldr/br goes to the original absolute target exactly when the original branch is taken, for b.cond, cbz/cbnz and tbz/tbnz |
| `Preservation.InvertCondDecodes` | app/src/main/cpp/Dobby/source/InstructionRelocation/arm64/InstructionRelocationARM64.cc:242-251 | The rewritten b.cond word decodes to the flipped condition with an offset of 12 |
| `Preservation.InvertCompareDecodes` | app/src/main/cpp/Dobby/source/InstructionRelocation/arm64/InstructionRelocationARM64.cc:269-278 | The rewritten cbz/cbnz word tests the same register at the same width for the opposite, with an offset of 12 |
| `Preservation.InvertTestDecodes` | app/src/main/cpp/Dobby/source/InstructionRelocation/arm64/InstructionRelocationARM64.cc:296-305 | The rewritten tbz/tbnz word tests the same bit of the same register for the opposite, with an offset of 12 |
| `Preservation.ConditionInvertedExactly` | app/src/main/cpp/Dobby/source/InstructionRelocation/arm64/InstructionRelocationARM64.cc:243-246 | Flipping the low condition bit inverts the test exactly for conditions below 14 |
| `Preservation.CondBranchExactly` | app/src/main/cpp/Dobby/source/InstructionRelocation/arm64/InstructionRelocationARM64.cc:236-262 | The image's run simulates a b.cond word exactly for conditions below 14, unless the target is the image's very next word; conditions 14 and 15 always fall through |
| `Preservation.AlwaysBranchFalls` | app/src/main/cpp/Dobby/source/InstructionRelocation/arm64/InstructionRelocationARM64.cc:236-262 | b.al to itself: its image falls through |
| `Preservation.WordLiteralExactly` | app/src/main/cpp/Dobby/source/InstructionRelocation/arm64/InstructionRelocationARM64.cc:195-210 | A 32-bit literal load is re-emitted as a 64-bit load: the result agrees exactly when the following word is zero or the register is x17 or the zero register |
| `Preservation.SimdLiteralExactly` | app/src/main/cpp/Dobby/source/InstructionRelocation/arm64/InstructionRelocationARM64.cc:195-210 | The S and D literal loads are re-emitted as 64-bit loads of the general register with the same number, since the V bit is never read: right exactly when both registers hold the literal already |
| `Preservation.LiteralExactly` | app/src/main/cpp/Dobby/source/InstructionRelocation/arm64/InstructionRelocationARM64.cc:195-210 | For every implemented literal load: what the image leaves, and exactly when the original agrees |
| `Preservation.LiteralsThatFail` | app/src/main/cpp/Dobby/source/InstructionRelocation/arm64/InstructionRelocationARM64.cc:195-210 | A concrete W and a concrete S load whose images do not agree with them, wherever the image is placed |
| `Preservation.LiteralsAccepted` | app/src/main/cpp/Dobby/source/InstructionRelocation/arm64/InstructionRelocationARM64.cc:192-210 | The relocator emits code for both of these words |
| `Domain.ModelledIndependent` | app/src/main/cpp/Dobby/source/InstructionRelocation/arm64/InstructionRelocationARM64.cc:317-319 | Every load, store, move, add and sub of the machine is independent of x17 and of the code in every state in which it accesses no code word, unless it reads x17 |
| `Domain.DataWordInDomain` | app/src/main/cpp/Dobby/source/InstructionRelocation/arm64/InstructionRelocationARM64.cc:317-319 | Such a word is in the domain, and re-emitted, in every state in which it accesses whole words that are not code |
| `Domain.FramePrologueInDomain` | app/src/main/cpp/Dobby/source/InstructionRelocation/arm64/InstructionRelocationARM64.cc:317-319 | A function starting with stp x29, x30, [sp, #-16]!; mov x29, sp; adrp is accepted, and its run is in the domain whenever the frame is not in the code |
| `Domain.LargeFramePrologueInDomain` | app/src/main/cpp/Dobby/source/InstructionRelocation/arm64/InstructionRelocationARM64.cc:317-319 | The same for sub sp; stp x29, x30, [sp, #16]; add x29; adrp |
| `Relocation.ClassesAgree` | app/src/main/cpp/Dobby/source/InstructionRelocation/arm64/InstructionRelocationARM64.cc:121-147 | The relocator's mask tests classify every word as the architecture does, except top byte 0x55 |
| `Relocation.OperandsAgree` | app/src/main/cpp/Dobby/source/InstructionRelocation/arm64/InstructionRelocationARM64.cc:177-245 | The offsets and registers that the relocator reads are those of the architecture's decoding |
| `Relocation.AcceptedExactly` | app/src/main/cpp/Dobby/source/InstructionRelocation/arm64/InstructionRelocationARM64.cc:173-319 | By the architecture's decoding: every word is accepted except the literal loads LDRSW, PRFM and those of Q registers |
| `Relocation.RawExactly` | app/src/main/cpp/Dobby/source/InstructionRelocation/arm64/InstructionRelocationARM64.cc:317-319 | Exactly the words that are not PC-relative are emitted as they are |
| `Relocation.ImplementedExactly` | app/src/main/cpp/Dobby/source/InstructionRelocation/arm64/InstructionRelocationARM64.cc:159-322 | A block of words is accepted exactly when all of its words are |
| `Relocation.RelocateOne` | app/src/main/cpp/Dobby/source/InstructionRelocation/arm64/InstructionRelocationARM64.cc:173-319 | Each branch appends exactly the expansion of the word, or reports UNIMPLEMENTED |
| `Relocation.RelocateWords` | app/src/main/cpp/Dobby/source/InstructionRelocation/arm64/InstructionRelocationARM64.cc:159-322 | The loop appends the expansions in order; the offset map has exactly the words' offsets and their images' |
| `Relocation.RelocateBlock` | app/src/main/cpp/Dobby/source/InstructionRelocation/arm64/InstructionRelocationARM64.cc:151-344 | Aborts exactly for blocks with an LDRSW, PRFM or Q literal load; otherwise the code is the linked expansion, with the exit jump if asked for, and the map has exactly the words' offsets as keys and their images' as values |
| `Relocation.RelocatedRealizes` | app/src/main/cpp/Dobby/source/InstructionRelocation/arm64/InstructionRelocationARM64.cc:330-341 | In the linked code every emitted item is in place and every literal load loads its own datum |
| `Relocation.ChunkAt` | app/src/main/cpp/Dobby/source/InstructionRelocation/arm64/InstructionRelocationARM64.cc:159-163 | The image of word i is exactly its expansion, at the recorded offset |
| `Relocation.LabelsOfLaws` | app/src/main/cpp/Dobby/source/core/assembler/AssemblerPseudoLabel.h:37-42 | The recorded loads of a block are inside it, distinct, and one per label |
| `BitFields.SignExtendIsTwosComplement` | app/src/main/cpp/Dobby/source/InstructionRelocation/arm64/inst_decode_encode_kit.h:5-14 | SignExtend is the two's-complement reading of the low bits |
| `BitFields.Imm14RoundTrip` | app/src/main/cpp/Dobby/source/InstructionRelocation/arm64/inst_decode_encode_kit.h:16-29 | decode after encode is the identity for every aligned offset in range; all other bits stay |
| `BitFields.Imm19RoundTrip` | app/src/main/cpp/Dobby/source/InstructionRelocation/arm64/inst_decode_encode_kit.h:31-45 | The same for imm19 |
| `BitFields.Imm26RoundTrip` | app/src/main/cpp/Dobby/source/InstructionRelocation/arm64/inst_decode_encode_kit.h:47-60 | The same for imm26 |
| `BitFields.AdrRoundTrip` | app/src/main/cpp/Dobby/source/InstructionRelocation/arm64/inst_decode_encode_kit.h:62-92 | The same for immhi:immlo |
| `BitFields.AdrpRoundTrip` | app/src/main/cpp/Dobby/source/InstructionRelocation/arm64/inst_decode_encode_kit.h:94-102 | The same for ADRP's page offsets, other fields included |
| `BitFields.AdrpPage` | app/src/main/cpp/Dobby/source/InstructionRelocation/arm64/InstructionRelocationARM64.cc:226-228 | Truncating pc + imm to a page is page(pc) + imm |
| `BitFields.SetFieldLaws` | app/src/main/cpp/Dobby/source/dobby/utility_macro.h:22-28 | set_bits then bits gives the value back, and every bit outside the field stays |
| `Encoder.DecodeB` | app/src/main/cpp/Dobby/source/core/assembler/assembler-arm64.h:334-338 | The word emitted by b decodes to B with the same offset |
| `Encoder.DecodeBranchReg` | app/src/main/cpp/Dobby/source/core/assembler/assembler-arm64.h:301-351 | br, blr and ret decode to what they were asked for |
| `Encoder.DecodeLdrLiteralX` | app/src/main/cpp/Dobby/source/core/assembler/assembler-arm64.h:353-376 | A patched literal load decodes to LDR (literal, 64-bit) with the patched offset |
| `Encoder.BoundLoadExactly` | app/src/main/cpp/Dobby/source/core/assembler/assembler-arm64.h:438-441 | The unscaled, 26-bit offset of ldr(rt, imm): the load of a label bound k words back decodes to a literal load of that label exactly when k is 0 |
| `Encoder.DecodeMov` | app/src/main/cpp/Dobby/source/core/assembler/assembler-arm64.h:474-484 | movz and movk decode to their register, halfword and position |
| `Encoder.DecodeAdrp` | app/src/main/cpp/Dobby/source/core/assembler/assembler-arm64.h:305-312 | adrp decodes to the page distance, over its whole signed 33-bit range |
| `Encoder.DecodeAddSubImm` | app/src/main/cpp/Dobby/source/core/assembler/assembler-arm64.h:314-329 | add and sub (immediate) decode to their operands |
| `Encoder.DecodeLoadStore` | app/src/main/cpp/Dobby/source/core/assembler/assembler-arm64.h:444-456 | ldr and str with a scaled unsigned offset decode to their operands |
| `Encoder.DecodePairX` | app/src/main/cpp/Dobby/source/core/assembler/assembler-arm64.h:458-472 | stp, pre-indexed stp and post-indexed ldp of X registers decode to their operands |
| `Encoder.DecodePairQ` | app/src/main/cpp/Dobby/source/core/assembler/assembler-arm64.h:458-472 | stp and post-indexed ldp of Q registers decode to their operands |
| `Simulation.MovRuns` | app/src/main/cpp/Dobby/source/core/assembler/assembler-arm64.h:536-547 | movz and three movk leave exactly the 64-bit immediate in the register and change nothing else |
| `Simulation.LongBranchRuns` | app/src/main/cpp/Dobby/source/core/codegen/codegen-arm64.cc:10-21 | A literal load of x17 and br/blr arrive at the datum, changing only x17 (and x30 for blr) |
| `Assembler.LinkingIsCorrect` | app/src/main/cpp/Dobby/source/core/assembler/assembler.cc:31-44 | For any number of labels and references in less than 2^20 bytes: every recorded load loads its own label's 8 bytes, only imm19 fields of recorded words change, and the slots lie behind the code, disjoint |
| `Assembler.LinkedRef` | app/src/main/cpp/Dobby/source/core/assembler/assembler-arm64.cc:6-21 | Every recorded word gets the distance to its own label, whichever label it belongs to |
| `Assembler.LinkedOther` | app/src/main/cpp/Dobby/source/core/assembler/assembler-arm64.cc:6-21 | No other word changes |
| `Assembler.LinkedData` | app/src/main/cpp/Dobby/source/core/assembler/assembler.cc:39-44 | Every label's datum is in its slot when all labels are bound |
| `Assembler.LinkedSnoc` | app/src/main/cpp/Dobby/source/core/assembler/assembler.cc:39-44 | Linking one more label is patching its loads in what is linked so far and appending its datum |
| `Assembler.TurboAssembler.PseudoBind` | app/src/main/cpp/Dobby/source/core/assembler/assembler.cc:31-37 | The loop over recorded references rewrites exactly those words |
| `Assembler.TurboAssembler.RelocBind` | app/src/main/cpp/Dobby/source/core/assembler/assembler.cc:39-44 | The loop over data labels yields the linked code |
| `Assembler.TurboAssembler.AppendRelocLabel` | app/src/main/cpp/Dobby/source/core/assembler/assembler.cc:46-48 | The label joins the data labels with the references it has |
| `Assembler.TurboAssembler.Ldr` | app/src/main/cpp/Dobby/source/core/assembler/assembler-arm64.h:526-534 | A bound label is addressed at once; an unbound one's load is recorded at its offset and emitted, for data labels and for labels that the caller keeps |
| `Assembler.TurboAssembler.LiteralLdrBranch` | app/src/main/cpp/Dobby/source/core/codegen/codegen-arm64.cc:10-21 | Appends a load of a new label holding the address and a branch |
| `Trampoline.GenerateNormalTrampolineBuffer` | app/src/main/cpp/Dobby/source/TrampolineBridge/Trampoline/arm64/trampoline_arm64.cc:15-39 | Produces adrp/add/br below a distance of 2^32 and ldr/br/literal from there on |
| `Trampoline.NormalTrampolineForm` | app/src/main/cpp/Dobby/source/TrampolineBridge/Trampoline/arm64/trampoline_arm64.cc:19-32 | From the addresses alone: three words adrp/add/br exactly below a distance of 2^32 either way, four words ldr/br/literal otherwise |
| `Trampoline.NormalTrampolineLands` | app/src/main/cpp/Dobby/source/TrampolineBridge/Trampoline/arm64/trampoline_arm64.cc:15-39 | For every from and to: control leaves the placed words with only x17 changed, at exactly `to` if and only if the adrp form is not used over a page distance of +2^32 |
| `Trampoline.NormalTrampolineCanMiss` | app/src/main/cpp/Dobby/source/TrampolineBridge/Trampoline/arm64/trampoline_arm64.cc:19-24 | Two aligned addresses that the distance guard accepts and adrp cannot reach |
| `Trampoline.SlackIsEnough` | app/src/main/cpp/Dobby/source/TrampolineBridge/Trampoline/arm64/trampoline_arm64.cc:19-21 | Below 2^32 - 2^12 the page distance always fits |
| `Trampoline.PageDeltaLaws` | app/src/main/cpp/Dobby/source/core/assembler/assembler-arm64.h:549-556 | The page distance is a multiple of the page, in [-2^32, 2^32], and leads from page to page modulo 2^64 |
| `Trampoline.GenerateFastForwardTrampoline` | app/src/main/cpp/Dobby/source/InterceptRouting/RoutingPlugin/NearBranchTrampoline/near_trampoline_arm64.cc:19-58 | Allocates twelve bytes near src, and twenty more exactly if they are given but 2^32 or more from dst, with exactly the allocator's answers; adrp/add/br, mov/br or failure accordingly; from an allocator of whole words and an aligned src both blocks are aligned and in the window |
| `Trampoline.GenerateNearTrampolineBuffer` | app/src/main/cpp/Dobby/source/InterceptRouting/RoutingPlugin/NearBranchTrampoline/near_trampoline_arm64.cc:60-79 | A direct B within the branch range without allocating, else a B to the forward trampoline, else failure; with the guarantees that the reach theorem takes as premises |
| `Trampoline.NearTrampolineForm` | app/src/main/cpp/Dobby/source/InterceptRouting/RoutingPlugin/NearBranchTrampoline/near_trampoline_arm64.cc:31-73 | From the addresses alone: a direct B exactly when the signed difference is below 2^27 in magnitude; else adrp/add/br exactly when the first block is below 2^32 from dst, else mov/br; failure exactly when a needed block is not given |
| `Trampoline.AllocateNearExecMemory` | app/src/main/cpp/Dobby/source/MemoryAllocator/NearMemoryAllocator.cc:204-211 | Exactly the near allocator's answer for a B at src, aligned and in the branch window |
| `Trampoline.NearTrampolineReaches` | app/src/main/cpp/Dobby/source/InterceptRouting/RoutingPlugin/NearBranchTrampoline/near_trampoline_arm64.cc:19-79 | For aligned addresses and blocks in the search window: the single B decodes to its in-range offset, and control reaches dst with at most x17 changed, exactly unless the forward adrp has a page distance of +2^32 |
| `Trampoline.BranchOffsetLaws` | app/src/main/cpp/Dobby/source/InterceptRouting/RoutingPlugin/NearBranchTrampoline/near_trampoline_arm64.cc:67-73 | The difference handed to b leads to its target modulo 2^64 and keeps alignment |
| `Hook.Interceptor.Find` | app/src/main/cpp/Dobby/source/Interceptor.cpp:12-19 | The first entry for the address, or none |
| `Hook.Interceptor.DobbyHook` | app/src/main/cpp/Dobby/source/InterceptRouting/Routing/FunctionInlineHook/FunctionInlineHook.cc:6-52 | Refused calls change nothing; an accepted one leaves exactly the forward trampoline (if a near branch is used), the image, the trampoline and the entry, with the original words saved; the origin pointer is returned when asked for; aborts exactly on LDRSW, PRFM and Q literal loads; it is one step of the runs that the registry theorems quantify over |
| `Hook.Interceptor.DobbyDestroy` | app/src/main/cpp/Dobby/source/dobby.cpp:15-31 | Writes the saved words back and removes the entry, or reports -1 and changes nothing; it is one step of those runs |
| `Hook.HookEndToEnd` | app/src/main/cpp/Dobby/source/InterceptRouting/Routing/FunctionInlineHook/FunctionInlineHook.cc:26-51 | By a normal or a near branch trampoline: in the hooked memory, entering the function reaches the replacement with only x17 changed, and entering the origin pointer behaves as the function did in the unpatched memory until it leaves the relocated words, for every run whose executed words are in the domain |
| `Hook.FrameFunctionHooked` | app/src/main/cpp/Dobby/source/InterceptRouting/Routing/FunctionInlineHook/FunctionInlineHook.cc:26-51 | The same for every function that starts by pushing a frame, if its stack is not in the patched or image words |
| `Hook.RouteRuns` | app/src/main/cpp/Dobby/source/InterceptRouting/InterceptRouting.cpp:54-68 | Either trampoline leads from the patched function to the replacement, changing only x17 |
| `Hook.HookRelates` | app/src/main/cpp/Dobby/source/InterceptRouting/InterceptRouting.cpp:20-51 | The hook leaves the image and unpatched memory otherwise equal, and the moved words are the original ones |
| `Hook.ImageIsShort` | app/src/main/cpp/Dobby/source/InterceptRouting/InterceptRouting.cpp:20-38 | The image of a patched function is at most 66 words, so its literal pool is always in reach |
| `Hook.WriteBackRestores` | app/src/main/cpp/Dobby/source/InterceptRouting/InterceptRouting.cpp:40-42 | Writing back the words read before a patch restores memory |
| `Registry.RunKeepsInv` | app/src/main/cpp/Dobby/source/dobby.cpp:15-31 | Over every run of hooks and destroys with disjoint live ranges, memory is the original overlaid with the live trampolines; with no live hook left, destroyed in any order, it is the original |
| `Registry.RunFromStart` | app/src/main/cpp/Dobby/source/dobby.cpp:15-31 | From a fresh registry: the overlay of the live trampolines after every such run, and the original memory once all are destroyed |
| `LiveHooks.LiveHooksWork` | app/src/main/cpp/Dobby/source/InterceptRouting/Routing/FunctionInlineHook/FunctionInlineHook.cc:26-51 | After every run of hooks and destroys on disjoint ranges with images in fresh memory, every live hook works: the function leads to its replacement with only x17 changed, and its origin pointer behaves as the function did in the memory before the run |
| `LiveHooks.RunKeepsLive` | app/src/main/cpp/Dobby/source/dobby.cpp:15-31 | Over every such run the image and the forward trampoline of every live hook stay in memory |
| `LiveHooks.OneHookIsPlaced` | app/src/main/cpp/Dobby/source/InterceptRouting/Routing/FunctionInlineHook/FunctionInlineHook.cc:26-51 | One laid-out hook meets the premises |
| `Registry.NestedRunRestores` | app/src/main/cpp/Dobby/source/dobby.cpp:15-31 | Over every well-nested run, overlapping ranges included, memory and registry are restored |
| `Registry.HookKeepsInv` | app/src/main/cpp/Dobby/source/InterceptRouting/Routing/FunctionInlineHook/FunctionInlineHook.cc:26-51 | A hook on a free range keeps the overlay invariant, whatever is hooked elsewhere |
| `Registry.DestroyKeepsInv` | app/src/main/cpp/Dobby/source/dobby.cpp:21-27 | Destroying any live hook keeps the overlay invariant |
| `Registry.OutOfOrderExactly` | app/src/main/cpp/Dobby/source/dobby.cpp:21-27 | Two accepted hooks, destroyed in the order they were made, restore memory exactly when the first trampoline changed no word that both cover |
| `Registry.OutOfOrderLeavesBranch` | app/src/main/cpp/Dobby/source/dobby.cpp:21-27 | Two hooks eight bytes apart leave the first trampoline's br behind, whatever was there |
| `Registry.OutOfOrderDoesNotRestore` | app/src/main/cpp/Dobby/source/dobby.cpp:21-27 | Two concrete hooks in a memory of nops, destroyed in the order they were made, that leave a br for a nop |
| `ClosureBridge.CreateClosureTrampoline` | app/src/main/cpp/Dobby/source/TrampolineBridge/ClosureTrampolineBridge/arm64/ClosureTrampolineARM64.cc:19-60 | Emits the trampoline with both literals linked, and its record |
| `ClosureBridge.GetClosureBridge` | app/src/main/cpp/Dobby/source/TrampolineBridge/ClosureTrampolineBridge/arm64/closure_bridge_arm64.cc:49-152 | Emits the 57 words of the bridge |
| `ClosureBridge.ClosureIsContextSwitch` | app/src/main/cpp/Dobby/source/TrampolineBridge/ClosureTrampolineBridge/arm64/closure_bridge_arm64.cc:49-149 | The handler is entered after 40 steps with the context of the entry state; for every handler run that keeps ctx.lr, the saved x30, the stack pointer and the code, control ends at ctx.x17 with SP and x30 as on entry and every other saved register as its context slot says |
| `ClosureBridge.EntersHandler` | app/src/main/cpp/Dobby/source/TrampolineBridge/ClosureTrampolineBridge/arm64/closure_bridge_arm64.cc:49-98 | The context holds the entry values of x0-x16, x18-x29, q0-q7 and SP; x0 and x1 are the context and the entry record; nothing outside the 416-byte frame changed |
| `ClosureBridge.LeavesHandler` | app/src/main/cpp/Dobby/source/TrampolineBridge/ClosureTrampolineBridge/arm64/closure_bridge_arm64.cc:100-149 | From the handler's return to ctx.x17, with every register restored from the context |
| `ClosureBridge.TrampolineEnters` | app/src/main/cpp/Dobby/source/TrampolineBridge/ClosureTrampolineBridge/arm64/ClosureTrampolineARM64.cc:28-37 | The prologue saves x30 and the record below SP and calls the bridge, touching nothing else |
| `ClosureBridge.TrampolineLeaves` | app/src/main/cpp/Dobby/source/TrampolineBridge/ClosureTrampolineBridge/arm64/ClosureTrampolineARM64.cc:39-44 | The epilogue reloads x30, releases the frame and branches to x17 |
| `ClosureBridge.SaveXRuns` | app/src/main/cpp/Dobby/source/TrampolineBridge/ClosureTrampolineBridge/arm64/closure_bridge_arm64.cc:56-72 | The fifteen stores put x1-x30 into their slots and write nothing else |
| `ClosureBridge.SaveQRuns` | app/src/main/cpp/Dobby/source/TrampolineBridge/ClosureTrampolineBridge/arm64/closure_bridge_arm64.cc:49-54 | The four stores put q0-q7 into their slots and write nothing else |
| `ClosureBridge.RestoreXRuns` | app/src/main/cpp/Dobby/source/TrampolineBridge/ClosureTrampolineBridge/arm64/closure_bridge_arm64.cc:108-123 | The fifteen post-indexed loads restore x1-x30 and pop their slots |
| `ClosureBridge.RestoreQRuns` | app/src/main/cpp/Dobby/source/TrampolineBridge/ClosureTrampolineBridge/arm64/closure_bridge_arm64.cc:125-129 | The four post-indexed loads restore q0-q7 and pop their slots |
| `UnorderedMap.Map.InsertNode` | app/src/main/cpp/Dobby/external/TINYSTL/hash_base.h:159-190 | The node is linked in behind the others of its bucket, the list stays ordered by bucket and doubly linked, and every slot still points at the first node of its bucket or above |
| `UnorderedMap.Map.EraseNode` | app/src/main/cpp/Dobby/external/TINYSTL/hash_base.h:192-207 | The node is unlinked and the same index invariant holds |
| `UnorderedMap.Map.FindNode` | app/src/main/cpp/Dobby/external/TINYSTL/hash_base.h:282-290 | Scanning from one slot to the next finds the node exactly when the key is in the list |
| `UnorderedMap.Map.Find` | app/src/main/cpp/Dobby/external/TINYSTL/unordered_map.h:188-200 | A node exactly when the key is in the map, and it holds the map's value |
| `UnorderedMap.Map.Insert` | app/src/main/cpp/Dobby/external/TINYSTL/unordered_map.h:221-242 | Inserts exactly when the key was absent; the contents are the old map updated, or unchanged; the slots grow exactly when the load bound would fail |
| `UnorderedMap.Map.Rehash` | app/src/main/cpp/Dobby/external/TINYSTL/unordered_map.h:202-219 | Exactly when size + 1 > 4 * (N + 1) the buckets become eight times as many, with the same contents and the very same nodes, and the bound holds again; otherwise nothing changes |
| `UnorderedMap.Map.Regrow` | app/src/main/cpp/Dobby/external/TINYSTL/unordered_map.h:205-217 | The relinking loop with eight times as many buckets |
| `UnorderedMap.Map.Erase` | app/src/main/cpp/Dobby/external/TINYSTL/unordered_map.h:268-275 | The contents are the old map without the node's key; the list is the old one without the node, and the slots are as many |
| `UnorderedMap.Map.At` | app/src/main/cpp/Dobby/external/TINYSTL/unordered_map.h:277-280 | operator[] returns the key's node, inserting a default value exactly when it was absent |
| `UnorderedMap.Map.SetAt` | app/src/main/cpp/Dobby/external/TINYSTL/unordered_map.h:277-280 | Assigning through operator[] updates the map at the key |
| `UnorderedMap.Map.Assign` | app/src/main/cpp/Dobby/external/TINYSTL/unordered_map.h:277-280 | Writing through a reference to a value keeps the index and updates the map at that key |
| `UnorderedMap.Map.Clear` | app/src/main/cpp/Dobby/external/TINYSTL/unordered_map.h:172-186 | Every node is destroyed, once and in list order; the empty map in nine slots is left |
| `UnorderedMap.Map.DestroyNodes` | app/src/main/cpp/Dobby/external/TINYSTL/unordered_map.h:174-181 | The loop reads each successor before destroying a node, and reaches all of them |
| `UnorderedMap.Map.Copy` | app/src/main/cpp/Dobby/external/TINYSTL/unordered_map.h:91-105 | A map of new nodes with equal contents and as many buckets |
| `UnorderedMap.Map.Keys` | app/src/main/cpp/Dobby/external/TINYSTL/unordered_map.h:134-146 | Following next from slot 0 visits every key exactly once, in list order |
| `UnorderedMap.Map.constructor` | app/src/main/cpp/Dobby/external/TINYSTL/unordered_map.h:83-89 | The empty map satisfies the invariant |
| `UnorderedMap.AndMask` | app/src/main/cpp/Dobby/external/TINYSTL/hash_base.h:161-161 | Masking with 2^e - 1 is the remainder modulo 2^e, so the masks of insert and find agree |
| `UnorderedMap.BucketIsRemainder` | app/src/main/cpp/Dobby/external/TINYSTL/hash_base.h:161-161 | A key's bucket is its hash modulo the number of buckets |
| `UnorderedMap.StartsInsert` | app/src/main/cpp/Dobby/external/TINYSTL/hash_base.h:161-189 | Inserting at the start of the next bucket keeps the bucket order and shifts the starts above |
| `UnorderedMap.StartsRemove` | app/src/main/cpp/Dobby/external/TINYSTL/hash_base.h:194-201 | Removing a node keeps the bucket order and shifts the starts above |
| `UnorderedMap.ContentsInsert` | app/src/main/cpp/Dobby/external/TINYSTL/unordered_map.h:230-236 | Inserting a node with a new key adds its pair to the contents |
| `UnorderedMap.ContentsRemove` | app/src/main/cpp/Dobby/external/TINYSTL/unordered_map.h:268-275 | Removing a node removes its pair from the contents |
| `UnorderedMap.SameNodes` | app/src/main/cpp/Dobby/external/TINYSTL/unordered_map.h:212-217 | The same nodes in another order have the same contents |
| `ThreadPool.RunKeepsInv` | app/src/main/cpp/ThreadPool.h:41-82 | Every interleaving keeps order, conservation, mutual exclusion and the no-lost-wakeup invariant |
| `ThreadPool.EveryTaskAccountedFor` | app/src/main/cpp/ThreadPool.h:41-82 | In every reachable state each accepted task is exactly one of queued, held by one worker, or finished once; the queue is the accepted tasks not yet taken, in order |
| `ThreadPool.NeverStuck` | app/src/main/cpp/ThreadPool.h:46-53 | With work queued or stop set, if all workers sleep or have exited and one sleeps, a notification is pending; all workers exited implies stopped, empty queue and every accepted task finished |
| `ThreadPool.NothingAcceptedAfterStop` | app/src/main/cpp/ThreadPool.h:74-80 | After stop nothing is accepted and stop stays, over every run |
| `ThreadPool.AcceptedExactly` | app/src/main/cpp/ThreadPool.h:73-82 | A running pool accepts every task until it is stopped: the accepted ones are exactly the calls before the first stop |
| `ThreadPool.AcceptedFromStart` | app/src/main/cpp/ThreadPool.h:34-36 | A new pool is running and has accepted nothing |
| `ThreadPool.EnqueueCall` | app/src/main/cpp/ThreadPool.h:73-82 | A call that gets the mutex puts its task at the end of the queue and owes a wake-up; on a stopped pool nothing changes |
| `ThreadPool.MutexComesFree` | app/src/main/cpp/ThreadPool.h:45-53 | In every reachable state the owner gives the mutex up within two steps of its own |
| `ThreadPool.StopCall` | app/src/main/cpp/ThreadPool.h:87-93 | The destructor stops a running pool and wakes everybody |
| `ThreadPool.DrainedWhenIdle` | app/src/main/cpp/ThreadPool.h:86-96 | A stopped pool without an internal step left has lost all workers and run every accepted task, so the joins return |
| `ThreadPool.StoppedStepsDecrease` | app/src/main/cpp/ThreadPool.h:86-96 | After stop every internal step, spurious wake-ups included, decreases a rank |
| `ThreadPool.QuietWhenFinished` | app/src/main/cpp/ThreadPool.h:41-82 | Stopped or not, a pool with workers comes to rest, except for spurious wake-ups, only with an empty queue and every accepted task finished |
| `ThreadPool.RunningStepsDecrease` | app/src/main/cpp/ThreadPool.h:41-82 | Stopped or not, every internal step except a spurious wake-up decreases a rank, so between calls of enqueue the pool comes to rest |
| `ThreadPool.KeepsConserved` | app/src/main/cpp/ThreadPool.h:51-55 | No step loses or duplicates a task |
| `ThreadPool.KeepsWakeup` | app/src/main/cpp/ThreadPool.h:46-53 | No step loses a wake-up |
| `ThreadPool.KeepsFifo` | app/src/main/cpp/ThreadPool.h:51-52 | Every step keeps the queue in order of acceptance |
| `ThreadPool.KeepsExclusive` | app/src/main/cpp/ThreadPool.h:46-53 | A worker is in the critical section exactly when it owns the mutex |
| `MemoryAllocator.MemoryArena.AllocMemBlock` | app/src/main/cpp/Dobby/source/MemoryAllocator/MemoryAllocator.cc:5-14 | Fails exactly when the rest is too small; otherwise the block is at the old cursor and the cursor moves past it |
| `MemoryAllocator.Allocator.Take` | app/src/main/cpp/Dobby/source/MemoryAllocator/MemoryAllocator.cc:37-42 | Every block ever handed out stays inside its arena, below the cursor and apart from all others |
| `MemoryAllocator.Allocator.AddArena` | app/src/main/cpp/Dobby/source/MemoryAllocator/MemoryAllocator.cc:24-33 | A new arena keeps the allocator valid if it is apart from the others |
| `MemoryAllocator.Allocator.AllocateExecBlock` | app/src/main/cpp/Dobby/source/MemoryAllocator/MemoryAllocator.cc:35-53 | First fit: the block is at the cursor of the first arena with room and nothing else moves; without one, exactly one arena of the rounded size modulo 2^32 is added and the block is at its start, if it fits; all blocks stay pairwise disjoint |
| `MemoryAllocator.ExecAnswerIsOne` | app/src/main/cpp/Dobby/source/MemoryAllocator/MemoryAllocator.cc:35-53 | This settles the answer and the new state; failure exactly when no arena has room and the rounded size wraps in 32 bits |
| `MemoryAllocator.GrowthFailsExactly` | app/src/main/cpp/Dobby/source/MemoryAllocator/MemoryAllocator.cc:45-48 | The allocation after growth fails exactly for sizes above 2^32 minus a page |
| `MemoryAllocator.GrowthCanFail` | app/src/main/cpp/Dobby/source/MemoryAllocator/MemoryAllocator.cc:45-48 | A request for 2^32 - 1 bytes maps an arena of size 0 |
| `MemoryAllocator.Allocator.AllocateNearBlockFromDefaultAllocator` | app/src/main/cpp/Dobby/source/MemoryAllocator/NearMemoryAllocator.cc:48-108 | The block is at the lowest place in the window in the first arena that has one, and nothing else moves; none exactly when no arena has one; all blocks stay inside their arenas, disjoint |
| `MemoryAllocator.Allocator.AllocateNearBlockFromUnusedRegion` | app/src/main/cpp/Dobby/source/MemoryAllocator/NearMemoryAllocator.cc:110-189 | The block is at the lowest place in the window in the first gap between regions that has one, in one new arena of the pages around it; none exactly when no gap has a place or the mapping is refused; the arena overlaps a listed region exactly when the block would end where the next region starts |
| `MemoryAllocator.Allocator.AllocateNearBlock` | app/src/main/cpp/Dobby/source/MemoryAllocator/NearMemoryAllocator.cc:191-202 | The first arena with a place, else the first gap with one if the mapping is granted, else none and nothing changes; a new arena overlaps a listed region exactly when the block in that gap ends where the next region starts, and otherwise the allocator stays valid; whole-word requests get whole-word blocks |
| `MemoryAllocator.NearAnswerIsOne` | app/src/main/cpp/Dobby/source/MemoryAllocator/NearMemoryAllocator.cc:191-202 | This settles the answer and the new arenas |
| `MemoryAllocator.NearStartExactly` | app/src/main/cpp/Dobby/source/MemoryAllocator/NearMemoryAllocator.cc:54-76 | The search finds the lowest place exactly when there is one and the window does not wrap around the address space |
| `MemoryAllocator.WrappedWindowFindsNothing` | app/src/main/cpp/Dobby/source/MemoryAllocator/NearMemoryAllocator.cc:50-52 | A window around a low address wraps around, and a place in it is missed |
| `MemoryAllocator.NearArenaClashes` | app/src/main/cpp/Dobby/source/MemoryAllocator/NearMemoryAllocator.cc:157-165 | A 12-byte request of the near trampoline whose arena covers the next region's first page |
| `MemoryAllocator.Allocator.TakeAt` | app/src/main/cpp/Dobby/source/MemoryAllocator/NearMemoryAllocator.cc:101-107 | After the placeholder the block is exactly at the address found |
| `MemoryAllocator.Allocator.RegisterNearArena` | app/src/main/cpp/Dobby/source/MemoryAllocator/NearMemoryAllocator.cc:157-188 | The pages mapped around the address hold the block, and it is taken exactly there |
| `MemoryAllocator.GapLaws` | app/src/main/cpp/Dobby/source/MemoryAllocator/NearMemoryAllocator.cc:117-160 | The address found behind a region is the region's end or the window's, and page rounding around the block keeps clear of every region exactly unless the block touches the next one |
| `MemoryAllocator.ArenaCovers` | app/src/main/cpp/Dobby/source/MemoryAllocator/NearMemoryAllocator.cc:157-160 | The pages mapped around a block are exactly those that touch it, and the one behind it if it ends on a page boundary |
| `MemoryAllocator.NearStartLaws` | app/src/main/cpp/Dobby/source/MemoryAllocator/NearMemoryAllocator.cc:54-76 | A found address is in the true window although the window's ends are computed modulo 2^64 |
| `MemoryAllocator.NearStartComplete` | app/src/main/cpp/Dobby/source/MemoryAllocator/NearMemoryAllocator.cc:54-76 | A place is found exactly when there is one, and it is the lowest |
| `ExportTrie.ReadUleb128` | app/src/main/cpp/Dobby/builtin-plugin/SymbolResolver/macho/macho_ctx.cc:133-154 | For every encoding, of any length, the result is the encoded number modulo 2^64 and the cursor is behind it |
| `ExportTrie.UlebRoundTrip` | app/src/main/cpp/Dobby/builtin-plugin/SymbolResolver/macho/macho_ctx.cc:133-154 | Decoding undoes encoding, for every number and wherever the encoding stands |
| `ExportTrie.TailWalk` | app/src/main/cpp/Dobby/builtin-plugin/SymbolResolver/macho/macho_ctx.cc:181-262 | The loops compute the walk, for all bytes and symbols, overruns included |
| `ExportTrie.WalkAgrees` | app/src/main/cpp/Dobby/builtin-plugin/SymbolResolver/macho/macho_ctx.cc:181-262 | For every trie that at most 2^32 bytes encode (the size field is 32-bit), the walk is the first-match lookup, exactly while it goes through at most 128 nodes |
| `ExportTrie.LongPathOverruns` | app/src/main/cpp/Dobby/builtin-plugin/SymbolResolver/macho/macho_ctx.cc:181-262 | Bytes encoding one symbol of n letters: found up to 128 nodes, array overrun beyond |
| `ExportTrie.TailWalkIsExportMap` | app/src/main/cpp/Dobby/builtin-plugin/SymbolResolver/macho/macho_ctx.cc:181-262 | With non-empty prefix-free edges and at most 128 nodes on a path: the payload position is returned exactly for exported symbols, null exactly for the others |
| `ExportTrie.NotRevisited` | app/src/main/cpp/Dobby/builtin-plugin/SymbolResolver/macho/macho_ctx.cc:245-257 | No node offset of a finite trie is met twice on a path, so the cycle check never fires |
| `ExportTrie.EncodesOne` | app/src/main/cpp/Dobby/builtin-plugin/SymbolResolver/macho/macho_ctx.cc:187-258 | One offset encodes one trie |
| `ExportTrie.LookupIsExport` | app/src/main/cpp/Dobby/builtin-plugin/SymbolResolver/macho/macho_ctx.cc:205-243 | With prefix-free edges the first matching edge is the only one |
| `ExportTrie.ChooseAgrees` | app/src/main/cpp/Dobby/builtin-plugin/SymbolResolver/macho/macho_ctx.cc:205-243 | The scan over a node's edges picks the first matching edge and its child's offset |
| `ExportTrie.ScanEdges` | app/src/main/cpp/Dobby/builtin-plugin/SymbolResolver/macho/macho_ctx.cc:205-243 | The loop over the edges computes the choice |
| `ExportTrie.ScanText` | app/src/main/cpp/Dobby/builtin-plugin/SymbolResolver/macho/macho_ctx.cc:206-219 | The scan stops at the text's end and is wrong exactly when the text is not a prefix of the symbol |
| `ExportTrie.SkipUleb` | app/src/main/cpp/Dobby/builtin-plugin/SymbolResolver/macho/macho_ctx.cc:221-226 | Skipping a number ends where reading it would |
| `ExportTrie.SmallTrie` | app/src/main/cpp/Dobby/builtin-plugin/SymbolResolver/macho/macho_ctx.cc:181-262 | An eight-byte trie that meets every premise, and the symbol found in it |
| `ExportTrie.UntidyEdgesHideSymbols` | app/src/main/cpp/Dobby/builtin-plugin/SymbolResolver/macho/macho_ctx.cc:231-242 | Fifteen bytes encoding a node with edges a and ab: the walk misses the exported symbol ab |
| `ExportTrie.MalformedIsMissing` | app/src/main/cpp/Dobby/builtin-plugin/SymbolResolver/macho/macho_ctx.cc:193-254 | Null for a node that is its own child, a child at offset 0 or behind the end, and a terminal size past the end |
| `ExportTrie.CutOffIsWild` | app/src/main/cpp/Dobby/builtin-plugin/SymbolResolver/macho/macho_ctx.cc:187-235 | Bytes that end within a number, before the edge count, within an edge's text or before its offset are read past the end |
| `Buffer.Buffer.Insert` | app/src/main/cpp/Dobby/external/TINYSTL/buffer.h:219-238 | The contents are the old ones with the filling spliced in, whether or not the buffer was reallocated, for ranges from elsewhere and from the buffer itself; the capacity grows by half exactly when it does not suffice |
| `Buffer.SelfInsertExactly` | app/src/main/cpp/Dobby/external/TINYSTL/buffer.h:223-237 | A range of the buffer is inserted with its original values exactly when it does not straddle the insertion point, or repeats with the distance from its start to that point |
| `Buffer.SelfInsertCanRepeat` | app/src/main/cpp/Dobby/external/TINYSTL/buffer.h:223-237 | Inserting [x, y] out of [x, y, z] after x gives [x, x, x, y, z] |
| `Buffer.Buffer.CopyRange` | app/src/main/cpp/Dobby/external/TINYSTL/buffer.h:236-237 | The constructing loop fills the gap with the filling, reading cells it has written when the range straddles |
| `Buffer.Buffer.InsertCommon` | app/src/main/cpp/Dobby/external/TINYSTL/buffer.h:202-217 | Opens a gap with the old elements on either side, reallocating or not |
| `Buffer.Buffer.MoveBackward` | app/src/main/cpp/Dobby/external/TINYSTL/buffer.h:104-108 | Moving up from the last cell is correct for overlapping ranges |
| `Buffer.Buffer.Reserve` | app/src/main/cpp/Dobby/external/TINYSTL/buffer.h:142-156 | The contents stay and the capacity suffices; reallocates exactly when it must |
| `Buffer.Buffer.Append` | app/src/main/cpp/Dobby/external/TINYSTL/buffer.h:247-255 | The element is appended with its old value, also when it is one of the buffer's own and the buffer is reallocated |
| `Buffer.Buffer.Erase` | app/src/main/cpp/Dobby/external/TINYSTL/buffer.h:267-278 | The contents without the range |
| `Buffer.EraseUndoesInsert` | app/src/main/cpp/Dobby/external/TINYSTL/buffer.h:202-278 | Erasing an inserted range restores the contents, and inserting an erased one too |

## Left out

- AppendRelocLabel: a label that is appended twice; every caller appends a new one.
- DobbyHook: the permission answer, the near branch that the plugin made and the address of the code block are parameters.
- AllocateNearBlock: the exact answer is stated for requests of at least one byte, in a window of less than half the address space, from arenas that do not lie at address 0, which the search takes for failure; the other clauses hold for all requests.
- CreateClosureTrampoline: the allocation of the code block and of the record is a parameter.
- GetClosureBridge: the caching of the finished bridge in a static variable.
- Registry.RunKeepsInv: hooks of blocks that the relocator aborts on are not told apart, since the process ends there.
- ReadUleb128: reading past the end is reported as an outcome; the original has an assertion that compiles to nothing there.
- Literal loads of Q registers, LDRSW and PRFM: the relocator aborts on them.
- Pointer arithmetic that wraps around the address space in `tail_walk`, and the reading of the payload by its caller.
- Object lifetimes in tinystl (constructors, destructors, moved-from values): elements are plain values; move constructor, swap, emplace and `buffer_erase_unordered` are left out as easy.
- The data-memory side of the allocators, which repeats the executable side.
- The FULL_FLOATING_POINT_REGISTER_PACK variant of the bridge, the handler's dispatch on the entry record, and pointer authentication.
- ARM, Thumb, x86 and x64 relocation, the symbol resolver outside the export trie, the JNI layer and all Java code.
- Loads and stores at addresses that are not multiples of 4: the machine's memory has one cell for each word, so they are outside the domain of the relocation theorems.
- Instruction-cache maintenance, and hooking while other threads execute the patched words.
