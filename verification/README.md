# UCX: verified models

UCX hooks itself into a running process and moves data between processes. This project models the parts
of it where a mistake is silent, and proves what they promise:

* **Binary rewriting** (`X86Machine`, `X86Relocate`, `X86Trampoline`, `CodePatch`, `Aarch64Relocate`).
  To intercept a library function, its first bytes are overwritten by a jump and the displaced
  instructions are moved into a trampoline. The x86-64 modules contain a decoder and a small-step
  semantics of the recognised instructions (sections 2.1.3, 2.2.1 and 2.2.1.6 of the Intel SDM,
  Volume 2A), the translator as code, and a simulation proof. The aarch64 module does the same for the
  second translator, over arbitrary meanings of the copied instructions.
* **Memory events** (`VmEvents`, `EventHandlers`). Every mapping call of the process is wrapped, and an
  observer (a registration cache) is told about mapped and unmapped ranges. The world of the model holds
  what the operating system maps, what the observer believes, and the size table of the wrappers; a run
  is any sequence of calls with any outcome the operating system allows.
* **Ownership** (`MallocOwnership`, `Relocations`). Page counters that tell own blocks from foreign ones,
  and the per-library symbol cache behind GOT patching.
* **Active messages** (`AmWire`, `AmSender`, `IntervalTree`, `AmReceiver`, `AmDelivery`, `AmOvertaking`). A
  long message is cut into fragments over several lanes, with back-pressure and restarts; the receiver puts
  the fragments together in any order, among those of other messages and of earlier attempts.
* **Loopback verbs device and file-system daemon** (`ScatterGather`, `Rdma`, `RingList`,
  `LoopbackQueues`, `VfsServer`).
* **Profile reader and number printer** (`ProfileLog`, `LogNumbers`).

Bytes, words modulo 2^64 and byte-addressed memory are in `Bytes`. Code that updates state is modelled as
classes and loops, tied by contracts to functions on values; the run-level results are lemmas about those
functions. What the operating system, the peers, the transport and callbacks do is an argument or an
arbitrary choice. Counting arguments over a whole run (descriptors of the daemon, requests of a queue
pair) follow one arbitrary but fixed item, so they hold for each.

## Where the code does not keep its promise

For each of these the exact condition under which the promise holds is proved, with an input where it fails.

* `mremap` with a fixed destination, `mmap` with `MAP_FIXED` at address 0, the tails of the last pages of
  requests that are no multiples of the page size, and advice the wrapper does not know release memory that
  the observer was not told about (`VmEvents.GuardExact`; inputs: `VmEvents.FixedRemapUnsafe`,
  `VmEvents.FixedAtNullUnsafe`, `VmEvents.PageTailUnsafe`, `VmEvents.UnknownAdviceUnsafe`).
* In the restartable send protocol, a busy retry before anything was sent marks the first fragment as
  sent, and the message goes out without it (`AmSender.SendTiles`; input: `AmSender.BusyRetryLosesFirst`).
* In the restartable receive protocol, a message is lost if and only if one of its fragments arrives when a
  message at least as new has just been handed over (`AmOvertaking.AmongOthers`). For two messages this is a
  condition on the order of arrival alone: the newer one is there completely, in one fragment or started
  first (`AmOvertaking.TwoMessages`; input: `AmOvertaking.CrossingBlocks`, where the list is then blocked for
  ever). If the newer message starts first and ends last, the sequence number goes back, and repeats of the
  newer one are taken for a new message (`AmOvertaking.RepeatsIgnored`; input:
  `AmOvertaking.EnclosingForgets`).
* A fragment that is the whole message, from an attempt before the restart, leaves behind what later attempts
  have brought (`AmDelivery.AnyAttempts`; input: `AmDelivery.StrayLeavesAssembly`).
* The near jump misses the hook for the one displacement whose absolute value overflows
  (`CodePatch.PatchReachesHook`; input: `CodePatch.NearMissInput`). Between user-space addresses, below 2^47,
  that displacement does not occur and the patch always lands (`CodePatch.UserSpaceLands`).
* On aarch64, ADRP is translated with the unmasked program counter, which is right exactly on page
  boundaries (`Aarch64Relocate.AdrpExact`; input: `Aarch64Relocate.AdrpOffPage`). The jump back destroys no
  more than what its register held at the start if and only if no moved load updates that register as its
  base (`Aarch64Relocate.TrampolineExact`; input: `Aarch64Relocate.BaseUpdateLost`).
* When several assembled messages are handed over together, a message gets the endpoint it asks to reply to if
  and only if all before it have asked for theirs (`AmReceiver.RepliesExactly`; input: `AmReceiver.ReplyLost`).
* An accepted connection whose flags cannot be set is never closed by the daemon
  (`VfsServer.Server.ServerLoop`; input: `VfsServer.LeakingRun`).
* A pointer of others is taken for ours if and only if it lies in the heap range or on the page of an own block
  (`MallocOwnership.RecognisedExactly`; input: `MallocOwnership.ForeignTaken`). The page counts stay exact over
  a run if and only if no allocation fails, but for reallocations of own blocks on the page of the null pointer
  (`MallocOwnership.RunExact`; input: `MallocOwnership.FailedMalloc`). A block whose reallocation has failed is
  no longer recognised, and its release is ignored, unless it is in the heap, on that page, or beside another
  own block (`MallocOwnership.FailedReallocForgets`; input: `MallocOwnership.LostBlock`).
* After a library was replaced at the same address without `dlclose` on its own handle, patches are written
  to the slots of the old one (`Relocations.Relocator.ApplyStale`; input: `Relocations.WrongSlotPatched`).
* Of several slots of a symbol in one object only the first is patched (`Relocations.SecondSlot`; input:
  `Relocations.SecondSlotMissed`).
* A pointer of an object back into itself, which is not to be kept as the previous value of a symbol, is
  recognised if and only if it is below the highest end in the file, because the load address is added to the
  lowest address only (`Relocations.OwnRecognised`; input: `Relocations.OwnPointerMissed`).
* The most negative number leaves the digit table of the number printer in base 10 (`LogNumbers.TableIndex`;
  input: `LogNumbers.LeavesTable`).

## Model

| member | source | states |
|---|---|---|
| `X86Machine.DecodePrefix` | src/ucm/bistro/bistro_x86_64.c:158-188 | what an instruction is depends only on the bytes it consists of, so a copied instruction decodes alike wherever it is put |
| `X86Machine.ExecFrame` | src/ucm/bistro/bistro_x86_64.c:158-378 | an instruction changes memory only where its operand says |
| `X86Relocate.RelocateContext.GroupOne` | src/ucm/bistro/bistro_x86_64.c:201-217 | the sub-from-stack branch accepts exactly the encodings that decode to that instruction and leaves the context as the specification says |
| `X86Relocate.RelocateContext.MovToMemory` | src/ucm/bistro/bistro_x86_64.c:218-239 | the store branch agrees with the decoder for every addressing form, with displacement and SIB lengths |
| `X86Relocate.RelocateContext.MovFromMemory` | src/ucm/bistro/bistro_x86_64.c:240-273 | RIP-relative loads become an absolute load of the address the decoder computes; other forms are refused |
| `X86Relocate.RelocateContext.CompareImmediate` | src/ucm/bistro/bistro_x86_64.c:279-300 | RIP-relative compares become the expansion through a saved %rax; exactly the other forms are refused |
| `X86Relocate.RelocateContext.ConditionalJump` | src/ucm/bistro/bistro_x86_64.c:301-322 | short conditional jumps become a jump over an absolute one, and the source limit is lowered to their target |
| `X86Relocate.RelocateContext.JumpIndirect` | src/ucm/bistro/bistro_x86_64.c:323-362 | indirect jumps are copied with their whole operand, and the source limit is lowered to their end |
| `X86Relocate.RelocateContext.TranslateOne` | src/ucm/bistro/bistro_x86_64.c:158-362 | the chain of opcode tests computes the translation of the instruction the decoder finds; it accepts exactly the encodings listed byte by byte, and consumes, emits and limits as many bytes as that list says |
| `X86Relocate.AcceptedExactly` | src/ucm/bistro/bistro_x86_64.c:158-362 | an instruction is translated if and only if its bytes are in the list of accepted encodings, with the lengths and the source limit of that list |
| `X86Relocate.RelocateContext.RelocateOne` | src/ucm/bistro/bistro_x86_64.c:158-378 | one step writes exactly the translation, or reports a full buffer and writes nothing |
| `X86Relocate.RelocateCode` | src/ucm/bistro/bistro.c:231-261 | the relocation loop computes the specification: same outcome, same bytes, same lengths |
| `X86Relocate.RelocatesExactly` | src/ucm/bistro/bistro.c:231-261 | a function is relocated if and only if a walk over accepted encodings, by their listed lengths, covers the patch within the source limit and the buffer |
| `X86Relocate.RelocatedPrefix` | src/ucm/bistro/bistro.c:242-261 | a successful relocation is a chain of whole instructions covering the patch and no instruction more, fits the buffer, keeps every conditional jump at or past its end, and has an indirect jump only as the last instruction |
| `X86Trampoline.SimulateCopy` | src/ucm/bistro/bistro_x86_64.c:189-239 | a copied instruction at its new address does what it did at the old one |
| `X86Trampoline.SimulateMov` | src/ucm/bistro/bistro_x86_64.c:240-273 | the two instructions for a RIP-relative load have the effect of the load |
| `X86Trampoline.SimulateCmp` | src/ucm/bistro/bistro_x86_64.c:279-300 | the four instructions for a RIP-relative compare set the same flags and restore %rax, changing only the 8 bytes below %rsp |
| `X86Trampoline.SimulateJcc` | src/ucm/bistro/bistro_x86_64.c:301-322 | the two instructions for a conditional jump go where it goes, taken or not |
| `X86Trampoline.SimulatePiece` | src/ucm/bistro/bistro_x86_64.c:158-378 | every translated instruction is simulated by its translation |
| `X86Trampoline.SimulateRun` | src/ucm/bistro/bistro_x86_64.c:158-422 | by induction over the prefix: when the original leaves it, the trampoline has reached the same address with the same registers, flags and live memory |
| `X86Trampoline.ConstructOrigFunc` | src/ucm/bistro/bistro_x86_64.c:380-422 | the block built is the return address, the moved code and a jump through that address, within the allocated size; no code memory and a function that cannot be moved are reported, each exactly when it is so |
| `X86Trampoline.MovedFits` | src/ucm/bistro/bistro_x86_64.c:380-422 | the address behind the moved prefix is representable |
| `X86Trampoline.TrampolineBehaves` | src/ucm/bistro/bistro_x86_64.c:158-422 | for every code, patch length and machine state, running the trampoline equals running the displaced instructions, except for the bytes below %rsp at each executed compare; without indirect jump it never returns into overwritten bytes |
| `X86Trampoline.DeadWithoutCompare` | src/ucm/bistro/bistro_x86_64.c:279-300 | without a moved compare no byte may differ |
| `X86Trampoline.DeadBelowStack` | src/ucm/bistro/bistro_x86_64.c:279-300 | the bytes that may differ afterwards are among the 8 below %rsp at each executed compare |
| `X86Trampoline.PatchKeepsMeaning` | src/ucm/bistro/bistro_x86_64.c:380-489 | calling the trampoline in patched memory does what calling the function did before patching |
| `X86Trampoline.PrologueMoves` | src/ucm/bistro/bistro_x86_64.c:189-200 | the most common function start, endbr64 and push %rbp, is moved as it is, and the conditions of the theorem come down to the stack being apart from the code |
| `CodePatch.PatchReachesHook` | src/ucm/bistro/bistro_x86_64.c:444-474 | a thread at the patched entry reaches the hook: by the far jump always, changing only %rax; by the near jump exactly if the displacement is not the most negative number |
| `CodePatch.UserSpaceLands` | src/ucm/bistro/bistro_x86_64.c:444-474 | between addresses below 2^47 the near jump is chosen exactly within 2 GB unless forced, and every patch reaches the hook |
| `CodePatch.NearMissInput` | src/ucm/bistro/bistro_x86_64.c:444-474 | two addresses for which the near jump is chosen and misses |
| `CodePatch.RunConsistent` | src/ucm/bistro/bistro.c:70-103 | every order of single-byte writes between lock and unlock keeps the entry locked and all other memory untouched |
| `CodePatch.EntryNeverTorn` | src/ucm/bistro/bistro.c:52-103 | at every step a thread at the entry sees unchanged memory, or the self-jump and stays, or the complete patch; never a mixture |
| `CodePatch.CodeSpace.ApplyPatchAtomic` | src/ucm/bistro/bistro.c:70-103 | the code follows an allowed run of the protocol that ends with the patch in place |
| `CodePatch.CodeSpace.Patch` | src/ucm/bistro/bistro_x86_64.c:444-489 | succeeds exactly if the function can be moved, memory for code and restore point is there and both protection changes succeed; memory is patched exactly if all but the last hold, and otherwise unchanged; the restore point holds the old bytes and the trampoline is the block that was built |
| `CodePatch.RestoreUndoes` | src/ucm/bistro/bistro.c:130-163 | undoing any stack of patches, overlapping or not, newest first, gives back every byte |
| `Aarch64Relocate.LoadRuns` | src/ucm/bistro/bistro_aarch64.c:142-149 | the MOVZ and MOVK words, decoded and run, load exactly the given 64-bit value and change nothing else |
| `Aarch64Relocate.JumpRuns` | src/ucm/bistro/bistro_aarch64.c:125-140 | the load-and-branch words reach the destination and change only their register |
| `Aarch64Relocate.AcceptedExactly` | src/ucm/bistro/bistro_aarch64.c:151-227 | a word is recognised if and only if it is assembled from the fields of one of the listed instructions, and taking it apart gives such fields back |
| `Aarch64Relocate.TranslatesExactly` | src/ucm/bistro/bistro_aarch64.c:151-227 | every such instruction is copied, or for ADRP replaced by a load of its signed operand, and excludes exactly the register in its field from the jump |
| `Aarch64Relocate.AdrpExact` | src/ucm/bistro/bistro_aarch64.c:199-213 | the loaded address is the one ADRP computes (section C6.2 of the Arm ARM) if and only if the instruction lies on a page boundary |
| `Aarch64Relocate.AdrpOffPage` | src/ucm/bistro/bistro_aarch64.c:199-213 | an instruction off a page boundary whose translation loads another address |
| `Aarch64Relocate.TranslatedRuns` | src/ucm/bistro/bistro_aarch64.c:151-227 | one translated instruction has the effect of the original, whatever the copied instructions mean |
| `Aarch64Relocate.MovedRuns` | src/ucm/bistro/bistro_aarch64.c:151-227 | the moved code does what the original instructions do, for every state |
| `Aarch64Relocate.TrampolineRuns` | src/ucm/bistro/bistro_aarch64.c:229-279 | moved code and jump together end where the original prefix ends, in the same state but for the register of the jump |
| `Aarch64Relocate.FreeUnwritten` | src/ucm/bistro/bistro_aarch64.c:166-213 | a register left for the jump is in the write set of a moved instruction if and only if that is an indexed load with it as base |
| `Aarch64Relocate.JumpRegisterKept` | src/ucm/bistro/bistro_aarch64.c:166-213 | for every meaning of the copied instructions that respects their write sets, running the original keeps the register of the jump, if no moved load has it as base |
| `Aarch64Relocate.JumpRegisterExact` | src/ucm/bistro/bistro_aarch64.c:166-213 | the original keeps the register of the jump for every such meaning and every state if and only if no moved load has it as base |
| `Aarch64Relocate.TrampolineExact` | src/ucm/bistro/bistro_aarch64.c:166-279 | trampoline and original end in the same state, once the register of the jump has back what it held at the start, for every such meaning and every state, if and only if no moved load has it as base |
| `Aarch64Relocate.BaseUpdateLost` | src/ucm/bistro/bistro_aarch64.c:166-213 | four post-indexed loads for which the original ends with the updated base and the trampoline with the address of the jump in that register |
| `Aarch64Relocate.PostIndexedRespects` | src/ucm/bistro/bistro_aarch64.c:166-213 | the meaning of loads in that input changes no register outside the write set |
| `Aarch64Relocate.RelocateContext.RelocateOne` | src/ucm/bistro/bistro_aarch64.c:151-227 | one step appends the translation and excludes the register the instruction uses, or reports what the specification says |
| `Aarch64Relocate.RelocateFunc` | src/ucm/bistro/bistro_aarch64.c:229-279 | for every patch length that is a multiple of 4: the buffer is never too small, the jump fits behind at most four times the code, the register is the lowest left of x9 to x15, and failure happens exactly if an instruction is not recognised or no register is left |
| `VmEvents.HeldStays` | src/ucm/event/event.c:176-481 | what the observer still holds when the system call is made, the call leaves in place |
| `VmEvents.CallSafe` | src/ucm/event/event.c:176-481 | a guarded call is safe before it, after the first notification, at the instant of release, and at return; the size table stays right |
| `VmEvents.UnguardedFails` | src/ucm/event/event.c:176-481 | for every unguarded call the operating system has an answer after which the observer holds a stale address |
| `VmEvents.GuardExact` | src/ucm/event/event.c:176-481 | the guard, checkable before the call, is exactly the condition for safety under every outcome |
| `VmEvents.FixedRemapUnsafe` | src/ucm/event/event.c:251-287 | a valid world and a remap onto a held address that is not guarded |
| `VmEvents.FixedAtNullUnsafe` | src/ucm/event/event.c:176-208 | a valid world and a fixed mapping at address 0 that is not guarded |
| `VmEvents.PageTailUnsafe` | src/ucm/event/event.c:210-228 | a valid world and an unmapping of one byte that releases the rest of the page unannounced |
| `VmEvents.UnknownAdviceUnsafe` | src/ucm/event/event.c:449-481 | a valid world and advice that releases pages without being on the wrapper's list |
| `VmEvents.RunSafe` | src/ucm/event/event.c:176-481 | over every run of guarded calls, succeeding or failing, no instant is unsafe |
| `VmEvents.PlainGuarded` | src/ucm/event/event.c:176-481 | page-sized calls that name no fixed destination over other memory are always guarded |
| `VmEvents.PlainRunSafe` | src/ucm/event/event.c:176-481 | for every run of such calls and every answer of the operating system, the observer never holds a released address |
| `VmEvents.HeldExactly` | src/ucm/event/event.c:176-481 | for every call and outcome: the observer holds afterwards exactly what the call newly maps, by integer bounds, and what it held before outside the ranges the call names |
| `VmEvents.ToldOfNew` | src/ucm/event/event.c:176-481 | after a successful mmap, mremap or shmat the observer holds every address of the new range, with its present backing |
| `VmEvents.ToldOfGrowth` | src/ucm/event/event.c:384-447 | after a break has grown, the observer holds every address up to the new break |
| `VmEvents.HeldUntilNamed` | src/ucm/event/event.c:176-481 | over every run, what is held stays held until a call names it |
| `VmEvents.MemoryHooks.MmapHook` | src/ucm/event/event.c:176-208 | the wrapper goes through the instants of the model: fixed ranges are announced before the call, the result after success, and nothing else is |
| `VmEvents.MemoryHooks.MunmapHook` | src/ucm/event/event.c:210-228 | announces before the call, whether or not it succeeds |
| `VmEvents.MemoryHooks.MremapHook` | src/ucm/event/event.c:251-287 | announces the old range before and the new one after success |
| `VmEvents.MemoryHooks.ShmatHook` | src/ucm/event/event.c:309-357 | a remapped attach announces the rounded place and drops its size entry; success records the size |
| `VmEvents.MemoryHooks.ShmdtHook` | src/ucm/event/event.c:359-382 | the announced size is that of the table, else that reported by the system, and the entry is dropped |
| `VmEvents.MemoryHooks.SbrkHook` | src/ucm/event/event.c:384-412 | shrinking is announced before, growth after |
| `VmEvents.MemoryHooks.BrkHook` | src/ucm/event/event.c:414-447 | as for sbrk, and a query releases nothing |
| `VmEvents.MemoryHooks.MadviseHook` | src/ucm/event/event.c:449-481 | exactly the advice on the wrapper's list is announced; which advice releases pages is the kernel's list |
| `EventHandlers.OrigBetween` | src/ucm/event/event.c:126-137 | in every state there is one original handler, after all negative priorities and before all others |
| `EventHandlers.OrderUnique` | src/ucm/event/event.c:498-513 | priority and order of addition leave no choice: lists of the same registrations are equal |
| `EventHandlers.UnsetExactly` | src/ucm/event/event.c:639-660 | exactly the registrations of a callback lose exactly the given events, and vanish exactly when none is left |
| `EventHandlers.UnsetSound` | src/ucm/event/event.c:639-660 | unsetting keeps the order and the original handler |
| `EventHandlers.NobodyAnswers` | src/ucm/event/event.c:139-148 | handlers that leave a failed event alone do not suppress the original call |
| `EventHandlers.HandlerList.Add` | src/ucm/event/event.c:498-513 | the handler is inserted, nothing else moves, and the order stays strict in priority and age |
| `EventHandlers.HandlerList.Remove` | src/ucm/event/event.c:515-520 | exactly that handler leaves |
| `EventHandlers.HandlerList.UnsetEvents` | src/ucm/event/event.c:639-660 | the in-place loop computes the specification while it deletes from the list it walks |
| `EventHandlers.HandlerList.Dispatch` | src/ucm/event/event.c:58-148 | subscribed handlers run in order, and the system call is made exactly if the result is still a failure when its handler is reached, and then once |
| `MallocOwnership.AllocatedAgrees` | src/ucm/malloc/malloc_hook.c:211-221 | after an allocation every page count equals the number of own blocks starting there |
| `MallocOwnership.RemovedAgrees` | src/ucm/malloc/malloc_hook.c:158-182 | from exact counts, every own block is recognised at its release, and the counts stay exact |
| `MallocOwnership.RecognisedExactly` | src/ucm/malloc/malloc_hook.c:184-209 | any pointer is taken for ours if and only if it is in the heap or an own block outside the heap starts on its page |
| `MallocOwnership.BreaksAgree` | src/ucm/malloc/malloc_hook.c:559-575 | moving the break past no live block leaves every page with the same blocks |
| `MallocOwnership.HeapBounds` | src/ucm/malloc/malloc_hook.c:559-575 | after any calls of sbrk the heap ends at the last break, and it starts where it did or at the first result |
| `MallocOwnership.ReleaseRecognised` | src/ucm/malloc/malloc_hook.c:195-209 | a released pointer, own or foreign, is classified correctly while the counts are exact |
| `MallocOwnership.CallDrift` | src/ucm/malloc/malloc_hook.c:239-358 | malloc, free and realloc, succeeding or failing: a failure adds one block too many on the page of the null pointer and never leaves too many on others; without it exact counts stay exact |
| `MallocOwnership.RunExact` | src/ucm/malloc/malloc_hook.c:132-358 | over every run with any failures, the counts are exact at the end if and only if none failed but reallocations of own blocks on the null page; otherwise that page counts as many too many as calls failed |
| `MallocOwnership.RunKeepsCounts` | src/ucm/malloc/malloc_hook.c:132-358 | over every run without such failures every live block is recognised and no foreign pointer is |
| `MallocOwnership.SharedPageMiscounts` | src/ucm/malloc/malloc_hook.c:158-209 | releasing a pointer of others on an own page is taken for a release of ours and breaks the counts |
| `MallocOwnership.FailedReallocForgets` | src/ucm/malloc/malloc_hook.c:325-358 | a block whose reallocation has failed is still recognised if and only if it is in the heap, on the null page, or beside another own block |
| `MallocOwnership.LostBlock` | src/ucm/malloc/malloc_hook.c:290-358 | a run in which such a block is released and the release is ignored |
| `MallocOwnership.FailedMalloc` | src/ucm/malloc/malloc_hook.c:211-251 | a failed allocation that is counted |
| `MallocOwnership.ForeignTaken` | src/ucm/malloc/malloc_hook.c:158-209 | two pointers of others that are taken for ours; after the release of one an own block is no longer recognised |
| `MallocOwnership.MallocHook.MmapedPtrAdd` | src/ucm/malloc/malloc_hook.c:137-156 | the hash update is the specified one |
| `MallocOwnership.MallocHook.MmapedPtrRemoveIfExists` | src/ucm/malloc/malloc_hook.c:158-182 | the count is positive, is decremented, and the entry goes when it reaches zero |
| `MallocOwnership.MallocHook.AddressRemoveIfManaged` | src/ucm/malloc/malloc_hook.c:195-209 | heap first, then the page table |
| `MallocOwnership.MallocHook.MoveBreaks` | src/ucm/malloc/malloc_hook.c:559-575 | the heap starts at the first break ever seen and ends at the current one |
| `MallocOwnership.MallocHook.MallocImpl` | src/ucm/malloc/malloc_hook.c:239-251 | whatever the allocator returns is tracked; exact counts stay exact if and only if it does not fail |
| `MallocOwnership.MallocHook.FreeImpl` | src/ucm/malloc/malloc_hook.c:290-302 | the block goes back to the allocator if and only if it is taken for ours, which while the counts are exact is if and only if it is; exact counts stay exact |
| `MallocOwnership.MallocHook.ReallocImpl` | src/ucm/malloc/malloc_hook.c:325-358 | data is copied out if and only if the old block is not taken for ours; the old block is untracked before the allocator can fail, and exact counts stay exact exactly without a failure that harms them |
| `Relocations.AddedExactly` | src/ucm/util/reloc.c:275-309 | a table adds exactly the unknown non-empty names, each with its first relocation |
| `Relocations.ScanExactly` | src/ucm/util/reloc.c:311-408 | the slot of a name is that of its first relocation, .got.plt before .got, and only in objects with the needed sections |
| `Relocations.OwnRecognised` | src/ucm/util/reloc.c:343-358 | an address in a loaded segment is taken for the object's own if and only if it is below the highest unmoved end: always at load address 0, never for an object loaded above that end |
| `Relocations.OwnPointerMissed` | src/ucm/util/reloc.c:260-268 | a library and a pointer into it that is not taken for its own |
| `Relocations.SecondSlot` | src/ucm/util/reloc.c:275-309 | after patching, all slots of a symbol hold the replacement if and only if each further one is the same slot or held it already |
| `Relocations.SecondSlotMissed` | src/ucm/util/reloc.c:275-408 | an object with a second slot that is not patched |
| `Relocations.UnannouncedReload` | src/ucm/util/reloc.c:410-518 | after the swap and re-application of the patches meant for the new object through the stale entry, a patch holds in it if and only if its old slot is its new one, or another of those patches with the same value hits the new slot, or none does and the loaded value is right |
| `Relocations.Relocator.ApplyStale` | src/ucm/util/reloc.c:410-650 | the loop over the patches with a stale entry leaves exactly those patches in force |
| `Relocations.WrongSlotPatched` | src/ucm/util/reloc.c:410-518 | two libraries for which the replacement of one function lands in the slot of another |
| `Relocations.Relocator.ApplyAll` | src/ucm/util/reloc.c:634-650 | the loop over the patches leaves every slot with the value of the last patch that is meant for the object and has that slot in the cache |
| `Relocations.Relocator.PopulateSymbols` | src/ucm/util/reloc.c:275-309 | the loop computes the specification and counts the new names |
| `Relocations.Relocator.ScanObject` | src/ucm/util/reloc.c:311-408 | headers and tables are read as a fresh scan, with the range the headers give |
| `Relocations.Relocator.InfoGet` | src/ucm/util/reloc.c:311-408 | what is returned equals a fresh scan, cached or not, and the cache stays exact |
| `Relocations.Relocator.ApplyTo` | src/ucm/util/reloc.c:218-273 | the slot ends up with the replacement, nothing else changes, and the previous value is kept exactly if asked for, different from the replacement and not taken for the object's own |
| `Relocations.Relocator.ApplyPatch` | src/ucm/util/reloc.c:462-518 | after success every object that is not excluded holds the replacement, and no patch of another symbol is lost, even when it fails half-way |
| `Relocations.Relocator.IsBlacklisted` | src/ucm/util/reloc.c:431-448 | excluded if and only if some pattern occurs in the name |
| `Relocations.Relocator.Modify` | src/ucm/util/reloc.c:742-777 | a successful registration is in force in all loaded objects and remembered; a failed one is not remembered; all earlier ones stay in force |
| `Relocations.Relocator.DlOpen` | src/ucm/util/reloc.c:562-653 | after loading any objects with any slot values, every patch whose re-application did not fail is in force everywhere; failures are ignored |
| `Relocations.Relocator.DlClose` | src/ucm/util/reloc.c:655-686 | the entry of the closed object is dropped, unloaded or not, the cache stays exact, and what was in force stays so |
| `AmWire.FirstRoundTrip` | src/ucp/core/ucp_am.h:58-143 | every field of a first fragment is at its documented offset, and parsing gives back payload, user header, identifiers and total length |
| `AmWire.MiddleRoundTrip` | src/ucp/core/ucp_am.h:58-143 | likewise for a middle fragment and its offset |
| `AmSender.PacketLayout` | src/ucp/am/eager_multi.c:261-311 | packets come out in the documented layout; the zero-copy middle footer is a prefix of the first one |
| `AmSender.StepInvariant` | src/ucp/am/eager_multi.c:60-153 | every event keeps the fragments since the last restart a tiling from offset 0, unless the first one was skipped |
| `AmSender.RunInvariant` | src/ucp/am/eager_multi.c:60-451 | so does every schedule of lane limits, retries and restarts |
| `AmSender.SendTiles` | src/ucp/am/eager_multi.c:60-451 | a completed send has tiled the message behind one first fragment if and only if no first fragment was skipped; after a restart that fragment carries the resend flag |
| `AmSender.BusyRetryLosesFirst` | src/ucp/am/eager_multi.c:414-432 | a schedule that completes without a first fragment |
| `AmSender.SendRequest.BcopySend` | src/ucp/am/eager_multi.c:117-153 | the packed buffer is the specified packet, and the header counts as sent exactly on success |
| `AmSender.SendRequest.ZcopySend` | src/ucp/am/eager_multi.c:261-311 | likewise from the registered footer buffer |
| `AmSender.SendRequest.ProgressOnce` | src/ucp/proto/proto_multi.inl:110-205 | one round advances the request as the state machine says, for every answer of the transport |
| `AmSender.RoundOutcome` | src/ucp/proto/proto_multi.inl:110-205 | a full lane changes nothing but the header mark of a busy retry, an error aborts the request with nothing sent, and success sends one fragment and completes exactly at the end of the message |
| `AmSender.AbortsExactly` | src/ucp/proto/proto_multi.inl:110-205 | over every schedule a request is aborted if and only if some round failed |
| `AmSender.CanComplete` | src/ucp/proto/proto_multi.inl:110-205 | from every state of an unfinished request, whatever lanes were full before, a schedule on any usable lane completes it |
| `AmSender.SendRequest.ResetRequest` | src/ucp/am/eager_multi.c:434-451 | restarting sets the resend flag and starts over |
| `IntervalTree.Insert` | src/ucs/datastruct/interval_tree.c:105-143 | inserting a range merges whatever it touches: exactly the union is covered and no two nodes touch; without memory it fails, changing nothing, if and only if nothing is touched |
| `IntervalTree.EqualRangeIff` | src/ucs/datastruct/interval_tree.h:169-182 | the one-node test holds if and only if every byte was received |
| `AmReceiver.ReceiveAllAuthentic` | src/ucp/core/ucp_am.c:1557-1794 | whatever fragments of whatever messages arrive, repeated or reordered, everything handed over is a message that was sent |
| `AmReceiver.SlotComplete` | src/ucp/core/ucp_am.c:1440-1520 | the interval tree tells exactly whether an assembly is complete |
| `AmReceiver.CopyFragment` | src/ucp/core/ucp_am.c:1413-1424 | copying a fragment keeps bytes and tree in agreement; without memory for a node it is recorded if and only if it touches what is there |
| `AmReceiver.ReceiveEndpoint.FindStarted` | src/ucp/core/ucp_am.c:1396-1411 | the lookup finds the first assembly of a message, or none |
| `AmReceiver.ReceiveEndpoint.HandleUnfinished` | src/ucp/core/ucp_am.c:1440-1520 | complete messages are handed over from the head of the list, in order, up to the first incomplete one, and their callbacks get what the specification says to reply to |
| `AmReceiver.RepliesExactly` | src/ucp/core/ucp_am.c:1426-1520 | a message gets the endpoint it asks for if and only if all handed over before it in the same update have asked for theirs |
| `AmReceiver.RepliesStart` | src/ucp/core/ucp_am.c:1426-1661 | a message in one fragment, and the first one an update hands over, gets the endpoint exactly if it asks |
| `AmReceiver.DrainedExactly` | src/ucp/core/ucp_am.c:1440-1520 | one callback for every message handed over, in order |
| `AmReceiver.ReplyLost` | src/ucp/core/ucp_am.c:1426-1520 | two messages for which the second asks and gets none |
| `AmReceiver.ReceiveEndpoint.TakeQueued` | src/ucp/core/ucp_am.c:1663-1682 | exactly the waiting fragments of the message are copied and taken out |
| `AmReceiver.ReceiveEndpoint.ReleaseQueued` | src/ucp/core/ucp_am.c:1522-1541 | exactly the waiting fragments of a message are dropped |
| `AmReceiver.ReceiveEndpoint.ReleasePartial` | src/ucp/core/ucp_am.c:1543-1555 | a partly assembled message and its waiting fragments are forgotten |
| `AmReceiver.ReceiveEndpoint.FirstHandler` | src/ucp/core/ucp_am.c:1557-1693 | the handler of first fragments computes the specification; without a buffer for a new message, it drops the fragment and the waiting ones, and nothing else |
| `AmReceiver.ReceiveEndpoint.MiddleHandler` | src/ucp/core/ucp_am.c:1695-1743 | the handler of middle fragments computes the specification; without a descriptor, a fragment that would have to wait is dropped |
| `AmReceiver.ReceiveEndpoint.HandlePacket` | src/ucp/core/ucp_am.c:1557-1794 | for every packet some sender produced: the duplicate test, parsing and the handlers together compute the specification, their size conditions hold, and everything held stays what was sent |
| `AmReceiver.GenuineView` | src/ucp/core/ucp_am.c:1557-1743 | a packet some sender produced is read as what its message says |
| `AmDelivery.ShuffledWhole` | src/ucp/am/eager_multi.c:60-451 | any permutation of the fragments of a completed send is a whole message |
| `AmDelivery.CompleteIff` | src/ucp/core/ucp_am.c:1440-1520 | an assembly is complete if and only if its fragments cover the message, and then it is the message |
| `AmDelivery.AbsorbedTracks` | src/ucp/core/ucp_am.c:1557-1743 | one more fragment, first or middle, found or not: the endpoint holds exactly the fragments before and this one |
| `AmDelivery.AnyAttempts` | src/ucp/core/ucp_am.c:1557-1794 | fragments of one message from any attempts, overlapping, repeated and in any order: until a first fragment and all bytes have arrived the endpoint holds exactly what arrived; then the message is handed over, once, and nothing is left behind if and only if no whole fragment without restart flag came after others that were not enough |
| `AmDelivery.StrayLeavesAssembly` | src/ucp/core/ucp_am.c:1584-1600 | an order of two attempts that leaves an assembly behind |
| `AmDelivery.DeliversOnce` | src/ucp/core/ucp_am.c:1557-1743 | a complete set in any order hands over payload and user header exactly once and leaves nothing behind |
| `AmDelivery.EndToEnd` | src/ucp/am/eager_multi.c:60-451 | any schedule of the sender that completes with its first fragment, and any arrival order, gives the receiver the message once |
| `AmDelivery.AttemptsSent` | src/ucp/am/eager_multi.c:60-451 | every fragment a sender run has accepted, in all its attempts, is packed with the flags of its attempt |
| `AmDelivery.RestartsDeliver` | src/ucp/am/eager_multi.c:60-451 | a sender run across any number of restarts and a receiver that gets any of its fragments, those of the last attempt in any case: the message is handed over once, and nothing is left behind if and only if no stray whole fragment came in between |
| `AmOvertaking.OtherArrives` | src/ucp/core/ucp_am.c:1440-1794 | a packet of another message leaves what is held of a message as it is, or hands over its complete assembly |
| `AmOvertaking.AmongOthers` | src/ucp/core/ucp_am.c:1557-1794 | the fragments of one complete send, in any order and among any other traffic, in both protocols: the message is never handed over if it is overtaken; otherwise it is handed over once, or waits complete in the list |
| `AmOvertaking.BlockedForever` | src/ucp/core/ucp_am.c:1440-1794 | an endpoint whose first assembly is incomplete and not newer than the last message handed over stays so whatever arrives, and hands over only messages that come in one fragment |
| `AmOvertaking.DrainTwo` | src/ucp/core/ucp_am.c:1440-1520 | with two messages in the list, the head decides what is handed over and in which order |
| `AmOvertaking.TwoMessages` | src/ucp/core/ucp_am.c:1557-1794 | for every interleaving of two complete sends, exactly what is handed over and in which order, the sequence number left, whether the list is blocked, and that otherwise nothing is left; the older message is lost if and only if one of its fragments comes after the newer one was ready |
| `AmOvertaking.CrossingBlocks` | src/ucp/core/ucp_am.c:1745-1794 | an order of four fragments that loses the older message and blocks the list |
| `AmOvertaking.RepeatsIgnored` | src/ucp/core/ucp_am.c:1745-1794 | fragments of a message with nothing in progress change nothing if and only if the sequence number of the endpoint is not below it |
| `AmOvertaking.EnclosingForgets` | src/ucp/core/ucp_am.c:1440-1520 | an order of four fragments after which a repeat of a message already handed over is accepted |
| `ScatterGather.RxSend` | contrib/ibmock/verbs.c:200-255 | terminates, succeeds if and only if the bytes after the header fit the segments, and leaves the segments holding exactly those bytes in order, followed by what was there before |
| `ScatterGather.RxPiece` | contrib/ibmock/verbs.c:222-242 | one source piece, across full and empty segments |
| `ScatterGather.SpliceSegment` | contrib/ibmock/verbs.c:236-241 | writing into one segment is writing into the concatenation at its position |
| `Rdma.DescriptorsRoundTrip` | contrib/ibmock/verbs.c:257-299 | every packed record reads back as the segment it was made from |
| `Rdma.Serialize` | contrib/ibmock/verbs.c:404-428 | the pieces after the header are the descriptors, and the total is the sum of the lengths |
| `Rdma.Reassemble` | contrib/ibmock/verbs.c:281-299 | the bytes are collected in order across pieces of any length, and fails if and only if there are too few |
| `Rdma.WriteEffect` | contrib/ibmock/verbs.c:301-316 | after a write the remote range equals the concatenation of the local segments, and nothing else has changed |
| `Rdma.ReadEffect` | contrib/ibmock/verbs.c:301-316 | after a read the local segments equal the remote range, and nothing else has changed |
| `Rdma.HasKey` | contrib/ibmock/verbs.c:270-279 | the key is found if and only if it is registered |
| `Rdma.RxRdma` | contrib/ibmock/verbs.c:257-320 | the original segments are copied in order, the total assertion holds, and an unknown key changes nothing |
| `Rdma.PostRdma` | contrib/ibmock/verbs.c:369-456 | from posting to completion, for every segment list with buffers apart from each other |
| `RingList.AddTail` | contrib/ibmock/lib.h:105-111 | the pointer surgery appends to the represented sequence |
| `RingList.Del` | contrib/ibmock/lib.h:113-118 | removes the element at its position, wherever it is, and unlinks it |
| `RingList.IsEmpty` | contrib/ibmock/lib.h:120-123 | empty if and only if the sequence is |
| `RingList.First` | contrib/ibmock/lib.h:125-128 | the first element, or the head if there is none |
| `RingList.WorkQueue.Put` | contrib/ibmock/verbs.c:166-171 | appends an entry |
| `RingList.WorkQueue.Take` | contrib/ibmock/verbs.c:217-218 | takes the oldest entry |
| `RingList.WorkQueue.TakeSome` | contrib/ibmock/verbs.c:516-536 | takes as many as asked for or as there are, oldest first |
| `LoopbackQueues.PostedOne` | contrib/ibmock/verbs.c:151-176 | posting keeps the books of every queue pair and completion queue balanced |
| `LoopbackQueues.ConsumedOne` | contrib/ibmock/verbs.c:200-255 | so does completing or dropping the oldest receive |
| `LoopbackQueues.EnteredOne` | contrib/ibmock/verbs.c:358-367 | so does any other completion |
| `LoopbackQueues.PolledOne` | contrib/ibmock/verbs.c:516-536 | so does polling |
| `LoopbackQueues.ExactlyOnePlace` | contrib/ibmock/verbs.c:151-255 | with balanced books, every posted receive is in exactly one of: pending, dropped as too short, in a queued completion, polled |
| `LoopbackQueues.CompletedDistinct` | contrib/ibmock/verbs.c:200-255 | receives complete in posting order, none twice |
| `LoopbackQueues.Device.PostRecv` | contrib/ibmock/verbs.c:151-176 | the requests before the first allocation failure are posted, in order |
| `LoopbackQueues.Device.RxSend` | contrib/ibmock/verbs.c:200-255 | without a receive the message is lost, into a short one it fails and the receive is dropped, otherwise the oldest receive is completed |
| `LoopbackQueues.Device.RxCallback` | contrib/ibmock/verbs.c:322-356 | refuses exactly messages for other devices and remote operations whose key is not registered; a send of ours takes the oldest receive and completes it with its identifier, sender and length, or fails exactly if it is too short; nothing else changes a queue |
| `LoopbackQueues.Device.SendSerialize` | contrib/ibmock/verbs.c:369-456 | returns 0 after the delivery and one send completion, with an error status exactly if the receive was too short, and -1 without any effect exactly if the operation is unsupported, refused or short of memory |
| `LoopbackQueues.SendReaches` | contrib/ibmock/verbs.c:200-456 | what one send does to the queues of sender and receiver, also when they are the same, and that no other queue changes |
| `LoopbackQueues.Device.AllRegistered` | contrib/ibmock/verbs.c:478-500 | the counting loop accepts if and only if every segment's key is registered in the domain |
| `LoopbackQueues.Device.PostSend` | contrib/ibmock/verbs.c:458-514 | all queues end up as after delivering and completing exactly the requests before the first failing one, in order |
| `LoopbackQueues.Device.PollCq` | contrib/ibmock/verbs.c:516-536 | the oldest completions are returned and leave the queue |
| `VfsServer.Server.AddFd` | src/tools/vfs/vfs_server.c:124-150 | appends an entry unless the flags cannot be set |
| `VfsServer.Server.RemoveFd` | src/tools/vfs/vfs_server.c:152-175 | closes and unmounts exactly what the entry owns, and marks it closed |
| `VfsServer.Server.Accept` | src/tools/vfs/vfs_server.c:184-201 | the connection offered is entered, closed, or lost, as the log says, unless there is none or no room |
| `VfsServer.Server.Admit` | src/tools/vfs/vfs_server.c:194-200 | a connection is closed exactly if credentials cannot be requested, entered exactly if its flags can also be set, and recorded in the log |
| `VfsServer.Server.MountFor` | src/tools/vfs/vfs_server.c:203-223 | with a valid process and a successful mount the entry is exactly the mounted one, one mount is added and nothing is closed; otherwise it is closed and nothing is mounted |
| `VfsServer.Server.Recv` | src/tools/vfs/vfs_server.c:225-258 | the server is stopped exactly by a stop request; a mount request mounts; everything else closes the entry |
| `VfsServer.Server.HandlePollin` | src/tools/vfs/vfs_server.c:260-277 | the listener stays and takes a connection exactly if there is one and room; other entries are served as their state and request say |
| `VfsServer.Server.HandlePollout` | src/tools/vfs/vfs_server.c:279-303 | only mounted entries get here; a successful send leaves the entry with its descriptor sent and closes nothing, a failed one closes it |
| `VfsServer.Visited` | src/tools/vfs/vfs_server.c:355-374 | one visit keeps order and books while the table is compacted in front and grows at the end |
| `VfsServer.Server.Pass` | src/tools/vfs/vfs_server.c:354-377 | a pass leaves one listener in front, no closed entry and nothing unaccounted for; the table is what is left of each entry after its turn, in order, and the connection taken |
| `VfsServer.SweptExactly` | src/tools/vfs/vfs_server.c:354-377 | the mounts of a pass are as many as the entries whose peers get one, and it stops the server if and only if some peer asks |
| `VfsServer.Server.RemoveAllFds` | src/tools/vfs/vfs_server.c:177-182 | everything still owned is closed and unmounted once |
| `VfsServer.Server.PollEvents` | src/tools/vfs/vfs_server.c:87-104 | entries get those of the events they asked for that are ready |
| `VfsServer.Server.ServeRound` | src/tools/vfs/vfs_server.c:345-375 | one turn of the loop, interrupted or not, takes the server to the next state of the model and reports exactly a failed poll that was not interrupted |
| `VfsServer.Server.ServerLoop` | src/tools/vfs/vfs_server.c:333-380 | for every sequence of rounds: the loop ends as the run of the model does, with its table, connections and mounts; a run that returns 0 has undone every mount once and closed every descriptor once, but for the connections whose flags could not be set, so none stays open if and only if there was no such connection |
| `VfsServer.LeakingRun` | src/tools/vfs/vfs_server.c:124-201 | a run of the loop that returns 0 and leaves a descriptor open |
| `VfsServer.MountingRun` | src/tools/vfs/vfs_server.c:203-380 | a run in which a peer connects, mounts and gets its reply ends with one mount and one unmount for it and nothing open |
| `ProfileLog.Crossing` | src/tools/profile/read_profile.c:513-539 | depth cannot pass a level without a begin, or an end, at that level |
| `ProfileLog.SlotIsOpen` | src/tools/profile/read_profile.c:513-539 | at an end, the stale-looking stack slot holds the only open begin at that depth |
| `ProfileLog.FindScopes` | src/tools/profile/read_profile.c:513-539 | with a stack that is never cleared, every begin gets exactly the first later end that returns to its depth, or none |
| `ProfileLog.ScopesNest` | src/tools/profile/read_profile.c:513-539 | matched scopes are disjoint or nested |
| `ProfileLog.UnfinishedExactly` | src/tools/profile/read_profile.c:556-566 | a scope is unfinished if and only if the depth never returns |
| `ProfileLog.MinDepthLeast` | src/tools/profile/read_profile.c:513-528 | the base of the call stack is the lowest depth reached |
| `ProfileLog.TracksAfter` | src/tools/profile/read_profile.c:579-617 | the map of numbers holds exactly the current requests after every record |
| `ProfileLog.IdsDistinct` | src/tools/profile/read_profile.c:579-599 | numbers are never reused |
| `ProfileLog.IdNamesOne` | src/tools/profile/read_profile.c:579-617 | the same number on two records means the same request |
| `ProfileLog.ShowLog` | src/tools/profile/read_profile.c:469-630 | every record prints its line: matched scopes with their duration, indentation above the base and never negative, the ordinal of a new request, and for later records that of the latest one with the key not freed since |
| `LogNumbers.WrappedPower` | src/ucm/util/log.c:84-90 | the wrapped product is the exact power below 2^63 and not positive once past it |
| `LogNumbers.TopDivider` | src/ucm/util/log.c:82-90 | the loop stops at the largest power not above the number and has counted its digits |
| `LogNumbers.DigitAt` | src/ucm/util/log.c:97-101 | dividing by powers from the top gives the digits from the left |
| `LogNumbers.IndexRight` | src/ucm/util/log.c:97-101 | the machine arithmetic, with the negative value labs() leaves for the most negative number, gives the right digit |
| `LogNumbers.ParsesBack` | src/ucm/util/log.c:65-109 | the text reads back as the number, for every padding and flag |
| `LogNumbers.FieldWidth` | src/ucm/util/log.c:82-106 | the field after the sign is as wide as asked for, or as the digits need, with blanks or zeros where the flags say |
| `LogNumbers.SignExactly` | src/ucm/util/log.c:70-72 | a sign is in front exactly of negative numbers, and of others if asked for |
| `LogNumbers.AddPadding` | src/ucm/util/log.c:52-59 | writes as much of the padding as fits |
| `LogNumbers.PutDigits` | src/ucm/util/log.c:97-101 | writes as many digits as fit |
| `LogNumbers.Ltoa` | src/ucm/util/log.c:65-109 | for every number and base but the most negative one in base 10, the buffer receives exactly the longest prefix of the text that fits, nothing at or past its end is written, and nothing else changes |
| `LogNumbers.TableIndex` | src/ucm/util/log.c:80-100 | all digits index into the table if and only if it is not the most negative number in base 10 |
| `LogNumbers.LeavesTable` | src/ucm/util/log.c:80-100 | the digit at which it does |

## Left out

- Other x86 instructions than those the translator recognises, and machine code that reads its own bytes or the bytes the patch overwrites.
- The red zone below the 8 bytes a moved compare uses; threads already inside the overwritten bytes; cache flushing.
- The bump allocator of executable memory, and the ppc64 and RISC-V variants, which only emit fixed code.
- Event installation, the GPU memory hooks, probing by real system calls, and the locks around the handler list.
- MallocOwnership.RunExact: the allocator returns unused blocks, and the break is never at address 0 and never crosses a live block; copying out a foreign block into a failed allocation, which the code does through a null pointer, has no meaning here.
- Thresholds, Valgrind branches, environment strings and the installation of the malloc hooks.
- VmEvents.PlainRunSafe: assumes what the system reports about segment sizes and the break is right, as the wrappers do.
- Relocations.Relocator.Modify: the two hooks for dlopen and dlclose are registered like other patches; a half-failed installation of them is not modelled.
- Relocations.Relocator.DlOpen: the search of run paths before the library is opened.
- Active messages: probing of protocols, single-fragment and rendezvous messages, and the datatype iterator, which packs between one and the allowed number of bytes.
- IntervalTree.Insert: the nodes are a set; balancing and the fast path are not modelled, and a node that is freed can be taken again.
- AmReceiver.ReceiveEndpoint.HandleUnfinished: memory for tree nodes is taken to be available.
- ScatterGather.RxSend: source and destination buffers are taken not to overlap, and lengths are not cut to 32 bits.
- LoopbackQueues.Device.PostSend: the queues are sequences, as proved for the linked lists in RingList; contents of the buffers are in ScatterGather.
- Creation and destruction of devices, queues and memory regions, address handles and the growable array.
- VfsServer.Server.Accept: no connection is taken when the table is full; the daemon does not check this and writes behind the table.
- VfsServer.Server.ServerLoop: the rounds are an argument; the run is covered for every sequence of them.
- ProfileLog.FindScopes: records within the nesting bound the reader's stack is sized for.
- ProfileLog.ShowLog: out-of-memory in the request table, colours and units of time.
- The formatted print around the number printer.
