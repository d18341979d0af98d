# Memory module loader: model and proofs

This project models the in-memory DLL loader in Dafny and proves what its algorithms promise. Objects that the
code updates in place are classes with loops and invariants; what their methods do is stated against values, and
the properties are proved about those.

## What is modelled

- **TLS virtualisation** (`TlsState`, `TlsHook`, `TlsThreads`, `TlsModules`, `TlsRemap`, `TlsLoad`, `TlsSystem`,
  `TlsRefinement`, `TlsConservation`, `TlsStartup`, `TlsManager`, `TlsExamples`). Each thread has a private vector of
  256 slots, and ntdll a shadow vector. The hook turns ntdll's "replace the vector" into "replace one slot". Proved over every run of thread
  starts, exits, kills, module loads and unloads, sweeps, requests of ntdll and vectors that it allocates and frees:
  the hook is invisible to ntdll (in its view, every run is a run of its own operations) and serves every request of
  ntdll's that the kernel could, the two vectors agree on all published slots, a block in a module slot is allocated and
  in that slot alone, blocks and vectors are freed once, no block is lost except to a sweep that overlooks it, and the
  index bitmap and the list agree. In these runs a thread may start without all of its blocks, and a load may fail
  at any point or leave threads out; a thread that starts without a record or a private vector of its own is no event
  (`TlsThreads.StartSafeIff`). Where no allocation and no kernel call fails, every live thread has its own block for
  every listed entry besides, and the thread count is never too low, and exact as long as no thread is killed.
  `TlsManager` is the code in place, the other
  modules hold its specification and the properties.
- **Dependency lists** (`Dependencies`). Unlinking a module's circular dependency list, mirrored by circular
  incoming lists, and which targets are unloaded, over any number of unloads.
- **Loader lists and hash table** (`LinkedLists`, `LoaderLists`), **base-address tree** (`BaseAddressTree`),
  **pattern search and index recovery** (`PatternSearch`, and `SearchAnswers` in terms of the bytes in memory).
- **Load and unload** (`Lifecycle`, `LoadAnswers`, `Bookkeeping`, `ReferenceCounts`, `LoaderHelpers`,
  `LoaderExamples`). The steps, what every call answers, how a load finds the module that is already there,
  the undoing of a failed load, reference counting, and how often each image and each loader entry is in the structures
  over every run, failing helpers and addresses that are used again included; what the helpers answer and leave is read
  off their own models.
- **Inverted function table** (`InvertedTable` the list and its runs, `InvertedTables` the record layout and the
  32-bit word layouts, one of them shifted by a field, `TableFormat` those layouts as ntdll writes them).
- **Image mapping and relocation** (`Bytes`, `Alignment`, `ImageMapping`, `Relocation`, `Rebase`). Memory is bytes;
  both relocation walkers run on it in place. `PeFormat` writes image headers, section tables and relocation
  directories byte by byte as the Microsoft PE Format gives them ("Optional Header", "Section Table (Section Headers)",
  "The .reloc Section (Image Only)"); `PeRelocations`, `PeImage` and `PeLoad` show what the loaders make of any file
  written so, from the file's bytes to the linked image.
- **Image checksum** (`Checksum`). Microsoft PE Format, "Optional Header Windows-Specific Fields", CheckSum.

Kernel and system answers (which threads the kernel picks, which allocations succeed, which addresses they return,
which protections are granted) are parameters. The kernel picks distinct live threads and, for a module load, leaves
no item unused while a live thread is without one (`TlsHook.Complete`). ntdll is taken to replace a vector by a zeroed
one that differs in the new slot only, and single slots within the current length (`TlsHook.NtdllDiscipline`);
transparency itself needs less, that the kernel could carry the request out (`TlsHook.NativeCallable`).

`dafny verify dfyconfig.toml` checks the whole project.

## Where the code does less than it means to

Each of these is a theorem, with the exact condition where the promise holds; the modules `TlsExamples` and
`LoaderExamples` hold concrete cases.

- A thread start leaves its thread without a private vector if a record with its id is still listed or memory for its
  record or vector is missing, and with a vector that is not a copy if its vector's length happens to equal its thread
  id (`TlsThreads.StartSafeIff`, `TlsExamples.StaleRecordExample`). It leaves the thread uncovered if a block cannot be
  allocated or a module's TLS template is empty (`TlsThreads.StartKeepsInvIff`, `TlsExamples.MissingBlockExample`).
- A refused kernel call leaves the module's TLS entry listed and lowers the thread count by every item
  (`TlsModules.RefusedLoadKeepsInvIff`, `TlsExamples.RefusedLoadLeaves`). A later load of that module that fails early
  releases the older entry and leaves the new one (`TlsModules.DropUndoesAddIff`, `TlsExamples.OlderEntryExample`).
- The sweep walks the listed entries, so an exited thread's block of a module that has been unloaded in the meantime is
  never freed; no other block is ever lost (`TlsConservation.RunConserves`, `TlsExamples.OverlookedExample`).
- The circular search for an edge does not end when the owner is missing from a ring of two or more
  (`Dependencies.SearchEndsIff`, `Dependencies.EndlessSearchExample`).
- A failed load leaves something behind when its last page protection is refused after the image was entered, when
  the TLS request was built and the hook has no memory or the kernel refuses, or when the node cannot be allocated
  after the index was entered (`Lifecycle.FailedLoadRestoresIff`, `LoaderHelpers.FailedLoadRestoresTableIff`,
  `LoaderHelpers.FailedLoadRestoresTlsIff`). What is left in the table or the index stays, through a successful retry
  at the same address, too (`Bookkeeping.RunLeftovers`, `LoaderExamples.RetryExample`).
- A module without a TLS directory is flagged as handled although nothing is listed for it, so its teardown releases a
  TLS entry that an earlier load left for the same loader entry's address, if there is one; nothing else takes what was
  left in the TLS list (`Bookkeeping.LeftoverStays`, `LoaderExamples.TakenExample`).
- A load that is told not to fail on TLS may succeed with its TLS entry listed and not flagged; the unload frees the
  image and leaves the entry, from whose template the next thread start copies
  (`Bookkeeping.SkippedTlsOutlivesModule`, `LoaderExamples.SkippedTlsExample`).
- A pre-hook records the vectors of threads that have gone under thread id 0, misses threads that have come, and
  reports success when the kernel refuses; and the count that is kept is taken before, on its own
  (`TlsStartup.PreHookInvIff`, `TlsStartup.RefusedPreHookInvIff`, `TlsExamples.LostThreadExample`).
- A failed load without mapping hands out an address that has been freed (`Lifecycle.UnmappedFailureDangles`).

## Model

| member | source | states |
|---|---|---|
| TlsHook.HookedReplaceVectorIsNative | src/loader/MmpTls.cpp:450-523 | a served ReplaceVector request that was turned into ReplaceIndex leaves, in ntdll's view, exactly what the kernel's own ReplaceVector leaves: each processed thread has the new vector with its old slots and the new one, and its previous vector comes back in the item |
| TlsHook.HookedReplaceIndexIsNative | src/loader/MmpTls.cpp:524-543 | a served ReplaceIndex request from ntdll leaves in the shadow vectors, and returns, exactly what the kernel's own ReplaceIndex would |
| TlsHook.FoundIsChosen | src/loader/MmpTls.cpp:506-508 | the record whose private vector shows an item's pointer is the record of the thread the kernel gave that item to |
| TlsHook.ChosenRecord | src/loader/MmpTls.cpp:502-538 | every thread the kernel served has a record |
| TlsHook.LdrNotPrivate | src/loader/MmpTls.cpp:150-156 | an LDR vector is never one of the private vectors |
| TlsHook.ViewOfThread | src/loader/MmpTls.cpp:517-521 | a thread's vector, as ntdll sees it, is the request's vector if the thread was served and the old one otherwise |
| TlsHook.GivenVectorContents | src/loader/MmpTls.cpp:510-515 | a vector handed to a thread holds the thread's old LDR slots below the request's length and its own slots from there on |
| TlsSystem.HookInvisible | src/loader/MmpTls.cpp:404-549 | every served request of ntdll, whose slots are within the chosen threads' vectors, is in ntdll's view the native operation with the same choice of threads |
| TlsSystem.NtdllRequestIsServed | src/loader/MmpTls.cpp:404-549 | completeness: in every safe state, a request of ntdll's on a slot below 0x80 that the kernel could carry out on ntdll's own vectors is, with its buffer and a kernel that serves, answered with success, as the native operation with the same choice of threads |
| TlsRefinement.RunIsNative | src/loader/MmpTls.cpp:128-740 | over every run, whatever fails in it, ntdll's view takes its own steps only: a new thread runs on the vector ntdll gave it, with or without its blocks, an ended one is gone, a request is the kernel's own operation, the sweep frees vectors no thread has, vectors are allocated and freed as ntdll does, and module loads, however they end, and unloads leave the view alone |
| TlsRefinement.LoadIsUnseen | src/loader/MmpTls.cpp:645-740 | a served module load leaves ntdll's view as it was |
| TlsRefinement.HandledIsUnseen | src/loader/MmpTls.cpp:645-740 | a module load leaves ntdll's view as it was, whether it is served, refused or fails before |
| TlsRefinement.FreeIsNative | src/loader/MmpTls.cpp:517-521 | a vector that no record and no queued item names is in ntdll's view nobody's, and freeing it there is the same step |
| TlsRefinement.StartIsNative | src/loader/MmpTls.cpp:150-171 | a thread start adds to ntdll's view the thread on its LDR vector, and nothing of the private one |
| TlsManager.Manager.HookNtSetInformationProcess | src/loader/MmpTls.cpp:404-549 | with its buffer and a kernel that serves, a call succeeds if and only if it is ntdll's ReplaceIndex or ReplaceVector on a slot below 0x80 or a module's ReplaceIndex on one from 0x80 to 0xFF; every other call is refused with the status of its own guard and changes nothing; and a served one does to the records, the vectors and the items what the request relations say |
| TlsManager.Manager.RemapVectors | src/loader/MmpTls.cpp:497-542 | the mapping loop for ReplaceVector turns the kernel's answer into the hooked state |
| TlsManager.Manager.RemapVector | src/loader/MmpTls.cpp:498-541 | one item: the record whose private vector shows the pointer takes the vector, and the item gets the old one; an item no record shows stays as sent |
| TlsManager.Manager.RemapSlots | src/loader/MmpTls.cpp:497-542 | the mapping loop for ReplaceIndex turns the kernel's answer into the hooked state |
| TlsManager.Manager.FindSlot | src/loader/MmpTls.cpp:499-538 | the first record whose private vector shows the pointer in the slot, if there is one |
| TlsManager.Manager.ConvertItems | src/loader/MmpTls.cpp:464-467 | each item of a ReplaceVector request asks for the pointer that its vector holds in the new slot |
| TlsManager.Manager.KernelReplaceIndex | src/loader/MmpTls.cpp:484-489 | the kernel's contract: the chosen threads' slots are swapped with the items' pointers and their flags and thread ids set |
| TlsRemap.SlotsAtItem | src/loader/MmpTls.cpp:502-508 | before item i is mapped back, exactly its thread's private vector shows its pointer |
| TlsRemap.ItemGiven | src/loader/MmpTls.cpp:510-521 | copying the old slots and swapping the vectors completes item i and disturbs no other |
| TlsRemap.ItemUnused | src/loader/MmpTls.cpp:536-541 | an item no thread got comes back as it was sent |
| TlsRemap.SlotPublished | src/loader/MmpTls.cpp:525-533 | publishing a slot in the LDR vector completes item i and disturbs no other |
| TlsSystem.VectorHookedKeepsInv | src/loader/MmpTls.cpp:450-523 | ReplaceVector requests of ntdll keep the mirror, the coverage, the ownership and the counts |
| TlsSystem.IndexHookedKeepsInv | src/loader/MmpTls.cpp:469-543 | ReplaceIndex requests of ntdll keep the mirror, the coverage, the ownership and the counts |
| TlsSystem.MirrorContinues | src/loader/MmpTls.cpp:510-515 | after a vector is replaced, the new LDR vector and the private vector agree on every published slot and published length stays within 0x80 |
| TlsSystem.InitialInvIff | src/loader/MmpTls.cpp:330-402 | a state in which every thread that was running has a private vector with its first slots meets the invariant if and only if as many threads were counted and none has a slot in use beyond the copied length |
| TlsStartup.PreHookInvIff | src/loader/MmpTls.cpp:330-402 | the pre-hook establishes the invariant if and only if every thread that it counted got a vector, no thread has come since, the count taken at initialisation is no lower, and none has a slot in use beyond the calling thread's length |
| TlsStartup.RefusedPreHookInvIff | src/loader/MmpTls.cpp:373-401 | a pre-hook whose kernel call is refused reports success, and leaves a state that meets the invariant only if no thread uses TLS |
| TlsManager.Manager.PreHookNtSetInformationProcess | src/loader/MmpTls.cpp:330-402 | the loops of the pre-hook: it fails on a failed allocation only, and leaves the moved threads and one record for each vector sent, or nothing |
| TlsManager.Manager.MakeRecords | src/loader/MmpTls.cpp:382-392 | one record for every item, those of items that no thread got included |
| TlsSystem.EventKeepsInv | src/loader/MmpTls.cpp:128-740 | every event keeps the whole invariant as long as no allocation and no kernel call fails that coverage or the count rests on |
| TlsSystem.RunKeepsInv | src/loader/MmpTls.cpp:128-740 | over every run in which no allocation and no kernel call fails, every live thread also has a block of its own for every listed entry, and the count is never too low |
| TlsSystem.EventKeepsSafe | src/loader/MmpTls.cpp:128-740 | every event, starts with missing blocks, loads that fail at any point and loads that leave threads out included, keeps the records, the mirror, the ownership and the indices |
| TlsSystem.RunKeepsSafe | src/loader/MmpTls.cpp:128-740 | over every run of thread starts, exits, kills, sweeps, module loads and unloads, requests of ntdll and vectors that it allocates and frees, whatever fails: LDR and private vectors agree on all published slots, lengths stay within 0x80, every block in a module slot is allocated and at home in that slot, and the bitmap and the list agree |
| TlsSystem.OtherVectorsSafe | src/loader/MmpTls.cpp:517-521 | vectors that no record and no queued item names may come, change and go without harm |
| TlsThreads.StartSafeIff | src/loader/MmpTls.cpp:128-177 | a thread start keeps the records, the mirror, the ownership and the indices if and only if the thread had no record, its record and its vector were allocated, and its vector's length was not mistaken for its thread id while a slot is published |
| TlsThreads.StartKeepsInvIff | src/loader/MmpTls.cpp:128-221 | a thread start keeps the invariant if and only if it is safe, every listed entry's block is granted (which an empty template never is), and the count does not wrap around |
| TlsThreads.StaleRecordBlocksStart | src/loader/MmpTls.cpp:144-148 | a thread whose id already has a record keeps running on its LDR vector, which is not the private vector that the record names, so the records no longer describe the threads |
| TlsThreads.MissingBlock | src/loader/MmpTls.cpp:190-196 | the slot of the first entry whose block was not granted stays null in the new thread, and the invariant is lost |
| TlsThreads.MistakenLength | src/loader/MmpTls.cpp:158-165 | when a vector's length equals the thread id, every published slot of the new private vector is null, and the mirror is lost if any was in use |
| TlsThreads.InstalledAt | src/loader/MmpTls.cpp:185-208 | the private vector of a new thread holds, at each granted entry's index, the block allocated for it, and what was copied elsewhere |
| TlsThreads.ExitKeepsInv | src/loader/MmpTls.cpp:292-328 | an orderly exit keeps coverage and count, too: one live thread and one counted thread less |
| TlsThreads.ExitKeepsSafe | src/loader/MmpTls.cpp:292-328 | an orderly exit keeps the other threads' blocks and vectors, and the ended thread's blocks are owned by the queued copy of its vector alone, also when the thread was never fully covered |
| TlsThreads.KillKeepsInv | src/loader/MmpTls.cpp:299-309 | a thread that disappears without notice keeps the invariant |
| TlsThreads.SweepKeepsInv | src/loader/MmpTlsFiber.cpp:30-66 | the sweep keeps the invariant: no block is freed that a live thread needs for a listed entry or a waiting item still owns |
| TlsThreads.SweepKeepsSafe | src/loader/MmpTlsFiber.cpp:30-66 | the sweep frees no block that a registered thread or a waiting item still owns, and no vector that a record names |
| TlsThreads.HomeSurvives | src/loader/MmpTlsFiber.cpp:44-52 | a block whose thread's item is not swept is still allocated, to the same owner, after the sweep |
| TlsConservation.RunConserves | src/loader/MmpTls.cpp:128-740 | conservation of data blocks: over every run, whatever fails in it, the allocated blocks that no slot of a record or of a waiting item refers to are exactly those that a sweep overlooked: blocks of modules that were unlisted before their thread's item was swept |
| TlsConservation.StepLoses | src/loader/MmpTls.cpp:128-740 | no event but the sweep loses a block, failed starts and loads included |
| TlsConservation.SweepIsComplete | src/loader/MmpTlsFiber.cpp:30-66 | one pass of the worker takes every ended thread's item off the list and no other, frees the LDR vectors of those and no other, and frees their blocks at the listed indices and no other |
| TlsConservation.ExitHandsOver | src/loader/MmpTls.cpp:292-328 | an orderly exit queues the record with the slots its vector had, and takes nobody else off the list or out of the live threads |
| TlsConservation.ExitKeepsExactIff | src/loader/MmpTls.cpp:303 | after an orderly exit the count is exact if and only if it was before |
| TlsConservation.StartKeepsExactIff | src/loader/MmpTls.cpp:128-221 | after a thread start that gets its record and vector an exact count is exact if and only if every block was granted and the count did not wrap around |
| TlsConservation.RunKeepsExact | src/loader/MmpTls.cpp:128-740 | over every run in which no allocation and no kernel call fails and no live thread is killed, the count is the number of live threads |
| TlsExamples.OverlookedExample | src/loader/MmpTlsFiber.cpp:44-52 | a concrete case: a thread exits, its module is unloaded, and the sweep leaves its block allocated with nothing that refers to it |
| TlsState.BlockBelongsToThatPairAlone | src/loader/MmpTls.cpp:182-208 | the block a live thread holds for a listed entry was allocated for that entry's module and belongs to that thread and that entry alone |
| TlsState.BlockInOneSlotAlone | src/loader/MmpTls.cpp:182-208 | in every safe state, whatever has failed before, a block in a module slot of a registered thread is allocated, and no other slot of any thread and no queued copy refers to it |
| TlsState.RecordUnique | src/loader/MmpTls.cpp:109-126 | a thread, a private vector and a record address each identify one record |
| TlsManager.Manager.FindTlspRecord | src/loader/MmpTls.cpp:109-126 | finds the current thread's record if there is one |
| TlsManager.Manager.AllocateTls | src/loader/MmpTls.cpp:128-221 | does what StartThread says, failures included; it answers true if and only if the thread had a record already or got a record, a vector and every block |
| TlsManager.Manager.InstallBlocks | src/loader/MmpTls.cpp:185-208 | allocates and installs one block per listed entry, up to the first that fails |
| TlsManager.Manager.ShutdownThread | src/loader/MmpTls.cpp:292-328 | takes the thread's record out, lowers the count by one and queues the vector |
| TlsManager.Manager.SweepPostponed | src/loader/MmpTlsFiber.cpp:30-66 | the worker's loop does what Sweep says, and frees no block twice |
| TlsManager.Manager.FreeSnapshot | src/loader/MmpTlsFiber.cpp:44-52 | frees one block per listed entry, each of which is still allocated |
| TlsModules.AddEntryKeepsIndexOk | src/loader/MmpTls.cpp:600-618 | listing an entry keeps: bits below 0x80 set, bit k set exactly when one listed entry carries k, indices distinct |
| TlsModules.DropEntryKeepsIndexOk | src/loader/MmpTls.cpp:625-643 | releasing an entry keeps the same |
| TlsModules.DropUndoesAddIff | src/loader/MmpTls.cpp:600-643 | releasing the module's entry after listing one restores list and bitmap if and only if none was listed for the module before; otherwise the older entry goes and the new one stays |
| TlsModules.AcquireFailsIff | src/loader/MmpTls.cpp:551-562 | acquiring an index fails if and only if 128 entries are live |
| TlsModules.EveryThreadServed | src/loader/MmpTls.cpp:673-720 | a request with at least as many items as there are live threads reaches every live thread |
| TlsModules.LoadKeepsInv | src/loader/MmpTls.cpp:663-740 | a served load that leaves no live thread out keeps the invariant, and afterwards the count equals the number of live threads |
| TlsModules.LoadKeepsSafe | src/loader/MmpTls.cpp:663-740 | a served load keeps the records, the mirror, the ownership and the indices, whichever threads it serves and whatever the state was left by earlier failures |
| TlsModules.RequestBlocksPlacedOrFreed | src/loader/MmpTls.cpp:687-729 | in every safe state and for every choice of the kernel's, every block allocated for the request is in exactly one slot of all threads, or it is freed; and what that slot held before is freed |
| TlsModules.RefusedLoadKeepsInvIff | src/loader/MmpTls.cpp:715-739 | when the kernel refuses, the entry stays listed and the count drops by every item; the invariant survives if and only if no thread is live |
| TlsModules.DropKeepsInv | src/loader/MmpTls.cpp:625-643 | a module unload keeps the invariant |
| TlsManager.Manager.AcquireTlsIndex | src/loader/MmpTls.cpp:551-562 | sets the first clear bit, or fails |
| TlsManager.Manager.AllocateTlsEntry | src/loader/MmpTls.cpp:564-623 | lists an entry with the acquired index, or changes nothing |
| TlsManager.Manager.ReleaseTlsEntry | src/loader/MmpTls.cpp:625-643 | unlists the module's first entry and clears its bit |
| TlsManager.Manager.HandleTlsData | src/loader/MmpTls.cpp:645-740 | the whole of a module's TLS handling: success if and only if the entry could be allocated, fewer than 128 were live, the request and all of its blocks and the hook's copy could be, and the kernel serves it, every other status by its own guard; and the state it leaves, also when an earlier load left an entry for the same module |
| TlsManager.Manager.FreeVector | src/loader/MmpTlsFiber.cpp:54 | a TLS vector is freed only while it is allocated, so never twice |
| TlsLoad.HandledKeepsSafe | src/loader/MmpTls.cpp:645-740 | however a module's TLS handling ends, it keeps the records, the mirror, the ownership and the indices |
| TlsLoad.CleanKeepsInv | src/loader/MmpTls.cpp:645-740 | it keeps coverage and count, too, if it is served and leaves no live thread out, or fails early with nothing listed for the module before |
| TlsManager.Manager.FreeItems | src/loader/MmpTls.cpp:722-729 | counts the unused items and frees every pointer that came back, each once |
| TlsLoad.ReturnedAllocated | src/loader/MmpTls.cpp:723-729 | the pointers that come back are allocated and pairwise distinct |
| TlsLoad.LoadCompleted | src/loader/MmpTls.cpp:715-739 | what the last loop leaves is a completed load |
| TlsLoad.RequestedSafe | src/loader/MmpTls.cpp:682-708 | the blocks of the request do not disturb the invariant before the kernel is asked |
| TlsExamples.StaleRecordExample | src/loader/MmpTls.cpp:144-148 | a concrete case: a killed thread's id is given to a new thread, whose start reports success and leaves it without a private vector |
| TlsExamples.MissingBlockExample | src/loader/MmpTls.cpp:190-196 | a concrete case: memory runs out for a listed module's block |
| TlsExamples.RefusedLoadLeaves | src/loader/MmpTls.cpp:715-739 | a concrete case: one thread, and a kernel that refuses a module's request (`TlsExamples.RefusedLoadExample`): the entry stays listed and no thread is counted |
| TlsExamples.OlderEntryExample | src/loader/MmpTls.cpp:677-680 | a concrete case: a load that fails early releases the entry that an earlier one left |
| TlsExamples.LostThreadExample | src/loader/MmpTls.cpp:382-392 | a concrete case: the one thread that was counted is gone when the kernel is asked |
| Dependencies.Graph.FreeDependencies | src/loader/LdrEntry.cpp:17-95 | unloading a node ends, frees each of its records once and reads none after that, empties its list, and takes it out of every target's incoming ring, whose other records keep their cyclic order; on Windows 8 every target's DependencyCount is one lower, a target is unloaded, once and in the order of the edges, if and only if it is now 0, its LoadCount was 0 and its ReferenceCount is 1, and exactly then its LoadCount becomes 1, other nodes staying as they are; before Windows 8 every target is unloaded once, in order, and no counter changes |
| Dependencies.Graph.FreeDependency | src/loader/LdrEntry.cpp:26-92 | one edge: unlinked from the target's ring, target released, record freed |
| Dependencies.Graph.FindEdge | src/loader/LdrEntry.cpp:42-69 | the search ends at the owner's record, with the one before it |
| Dependencies.Graph.Unlink | src/loader/LdrEntry.cpp:44-64 | the owner's record leaves the ring |
| Dependencies.Graph.RemoveHead | src/loader/LdrEntry.cpp:46-58 | removing the head of the ring: an only record leaves no ring, otherwise the last record is led to the next head |
| Dependencies.Graph.RemoveAfter | src/loader/LdrEntry.cpp:59-62 | removing another record leads its predecessor past it |
| Dependencies.Graph.ReleaseTarget | src/loader/LdrEntry.cpp:74-87 | one target: on Windows 8 a DependencyCount of 0 ends the process, otherwise it goes down by one, and if it is then 0, with LoadCount 0 and ReferenceCount 1, the LoadCount becomes 1 and the target is unloaded; before that the target is unloaded and no counter changes |
| Dependencies.AllGivenUp | src/loader/LdrEntry.cpp:74-87 | what freeing all edges does to every counter on Windows 8, and whom it unloads, for every owner and every state of the counters |
| Dependencies.DependentsGone | src/loader/LdrEntry.cpp:76-82 | over the unloads of any number of modules, a target's DependencyCount is down by how many of them depend on it, and its LoadCount is set if and only if that leaves none and it was neither loaded by itself nor referenced otherwise |
| Dependencies.UnloadedAtTheLast | src/loader/LdrEntry.cpp:76-82 | over the unloads of any number of modules, a target is unloaded exactly at the one that is its last dependent, and only if it was neither loaded by itself nor referenced otherwise |
| Dependencies.RemovedFrom | src/loader/LdrEntry.cpp:51-62 | a ring with one record led past is the ring without that record |
| Dependencies.HeadRemoved | src/loader/LdrEntry.cpp:51-57 | leading the last record to the second one takes the head off its ring and leaves all other rings alone |
| Dependencies.InnerRemoved | src/loader/LdrEntry.cpp:59-62 | leading its predecessor past a record takes it off its ring and leaves all other rings alone |
| Dependencies.Relinked | src/loader/LdrEntry.cpp:42-69 | changing one target's ring leaves the rings of all other nodes alone |
| Dependencies.WithoutIsRemoveAt | src/loader/LdrEntry.cpp:43-44 | the ring without the owner's records is the ring without its one record |
| Dependencies.SearchEndsIff | src/loader/LdrEntry.cpp:42-69 | the search ends if and only if the owner is on the ring or the ring has a single record |
| Dependencies.EndlessSearchExample | src/loader/LdrEntry.cpp:42-69 | a concrete ring of two records of other modules in which no round of the search is its last |
| LinkedLists.Links.InsertTailList | src/loader/LdrEntry.cpp:251-256 | the entry becomes the last of its ring; all rings stay well linked |
| LinkedLists.Links.RemoveEntryList | src/loader/LdrEntry.cpp:235-238 | the entry leaves its ring, whose others keep their order; all rings stay well linked |
| LoaderLists.RtlInsertMemoryTableEntry | src/loader/LdrEntry.cpp:245-257 | the module becomes the last of the bucket its name hashes to and of the three lists, and a validly hashed table stays valid |
| LoaderLists.RemoveMemoryTableEntry | src/loader/LdrEntry.cpp:235-238 | the module leaves the four lists, and a validly hashed table stays valid |
| LoaderLists.LeaveUndoesEnter | src/loader/LdrEntry.cpp:235-257 | leaving after entering restores every list |
| LoaderLists.IsValidLdrpHashTable | src/loader/Initialize.cpp:142-170 | true if and only if each of the 32 buckets, 16 bytes apart, can be read and closes, holding only modules whose names hash to it; an address below zero or one that cannot be read makes it false |
| LoaderLists.BucketValid | src/loader/Initialize.cpp:148-168 | one bucket's walk: it ends well if and only if the links lead back to the head through names that hash to the bucket; an address that cannot be read and a name that hashes elsewhere end it with false |
| LoaderLists.FindLdrpHashTable | src/loader/Initialize.cpp:172-189 | returns the candidate of the first module that is alone in its bucket if all its buckets can be read and close with entries that hash to them, and nothing otherwise |
| LoaderLists.RecoversTheTable | src/loader/Initialize.cpp:172-189 | for a well-formed table the result is the true start if and only if some walked module is alone in its bucket |
| LoaderLists.FindsTheTable | src/loader/Initialize.cpp:172-189 | for a process whose modules are on the initialisation list by the link at 0x20 of their records and in their buckets by the one at 0x70, FindLdrpHashTable's result is the table's address if some module has its bucket to itself, and nothing otherwise |
| LoaderLists.AloneIff | src/loader/Initialize.cpp:179-180 | an entry and one other node make up a ring exactly when its bucket has one member |
| Lifecycle.Loader.LdrLoadDllMemoryExW | src/loader/Loader.cpp:47-219 | what every load call answers and leaves: refusals, the module already there, the mapped module, or what failing steps left (read guard by guard in LoadAnswers); and a failed call that still hands out an address hands out one where no module is |
| Lifecycle.Loader.FindLoaded | src/loader/Loader.cpp:80-116 | the loop over the load-order list ends at the first entry that LoadAnswers.FirstFound says: a memory module not being unloaded, called by the given name or that and four characters more, upper and lower case aside, with the same header sizes |
| LoadAnswers.LoadAgainCounts | src/loader/Loader.cpp:77-118 | if a memory module's entry that is not being unloaded is called by the given name, or by that and four characters more, upper and lower case aside, has the same header sizes, and no earlier entry does, a call that counts references succeeds with that module's base, raises its count by one if it counts them too, and changes nothing else; if one of the two does not count, the call is refused |
| LoadAnswers.LoadOtherwiseMaps | src/loader/Loader.cpp:77-219 | if no entry is called so, the call maps a new image: on success its entry is the last of the list, and its module has one reference and the flags the call asked for |
| LoadAnswers.LoadedTwiceIsCountedTwice | src/loader/Loader.cpp:47-219 | loading an image and loading it again, by its base name or without its four-character suffix, gives one module with two references |
| LoadAnswers.ArgumentsAnswer | src/loader/Loader.cpp:60-81 | each refusal of the arguments, by its guard, with nothing changed |
| LoadAnswers.NewLoadAnswers | src/loader/Loader.cpp:120-219 | what a load that maps a new image answers: the first step that fails decides, with its own status, except that the TLS handling may be allowed to fail |
| LoadAnswers.UnloadAnswers | src/loader/Loader.cpp:221-285 | what an unload answers, by its guards: an unknown handle, a count that cannot be read, one reference less from two on, and otherwise the end of the module |
| Lifecycle.MappingAllOrNothing | src/loader/Loader.cpp:14-45 | the mapping of the entry (`Lifecycle.Loader.LdrMapDllMemory`) succeeds exactly when its entry is listed afterwards, and freeing the entry then restores lists and index; one that fails changes nothing, unless all that failed was the allocation of the dependency node |
| Lifecycle.Loader.MmpHandleTlsData | src/loader/MmpTls.cpp:645-740 | the entry is unlisted again when the request cannot be built, but not when the hook or the kernel fails; entries that are already there for the same address stay |
| Lifecycle.Loader.Stages | src/loader/Loader.cpp:157-206 | after the stages the flags say what was done, whichever stage ended them |
| Lifecycle.Loader.Attach | src/loader/Loader.cpp:122-219 | a load that maps an image either adds the module to every structure its flags name or undoes all of that |
| Lifecycle.Loader.LdrUnloadDllMemory | src/loader/Loader.cpp:221-285 | what every unload call answers and leaves |
| Lifecycle.Loader.TearDown | src/loader/Loader.cpp:259-280 | each structure that the flags name gives the module up |
| Lifecycle.FailureIs | src/loader/Loader.cpp:212-216 | the unload undoes a failed load up to what failing steps left, less a TLS entry that was there for the loader entry's address if the module has no TLS directory |
| Lifecycle.FailedLoadRestoresIff | src/loader/Loader.cpp:157-216 | a failed load restores every structure if and only if none of these ended a step: the pages refusing to be closed after a free slot was filled, the hook without memory or the kernel refusing after the TLS request was built, no memory for the node after the index was entered; and its rollback, without a TLS directory, did not release an entry that was there before |
| LoaderHelpers.InsertionAnswers | src/loader/InvertedFunctionTable.cpp:165-184 | the answers that a load sees are those of the inverted function table, and the image is in the table once more afterwards exactly when they say so |
| LoaderHelpers.LeftInTableIff | src/loader/InvertedFunctionTable.cpp:173-183 | the insertion fails with the image left in the table if and only if the pages were opened, a slot was free, and the pages refused to be closed, whether the image was there before or not |
| LoaderHelpers.RemovalTakesOut | src/loader/InvertedFunctionTable.cpp:92-142 | a removal takes the image out once, if it is there at all, and nothing else |
| LoaderHelpers.TlsHandlingAnswers | src/loader/MmpTls.cpp:645-740 | the answers that a load sees are those of the TLS handling, and the module is listed once more afterwards exactly when they say so |
| LoaderHelpers.LeftTlsIff | src/loader/MmpTls.cpp:715-739 | the handling fails with the module left listed once more if and only if the request was built and then the hook had no memory or the kernel refused |
| LoaderHelpers.ReleaseTakesOff | src/loader/MmpTls.cpp:625-643 | the release takes one entry of the module off the list, if there is one, and nobody else's |
| LoaderHelpers.IndexEntered | src/loader/BaseAddressIndex.cpp:156-187 | an insertion puts the base into the index and takes none out |
| LoaderHelpers.TableAfterFailureIs | src/loader/Loader.cpp:173-216 | a failed load, through the real insertion and removal, leaves each image as often in the table as the load's own model says, for every table |
| LoaderHelpers.TlsAfterFailureIs | src/loader/Loader.cpp:180-216 | a failed load, through the real TLS handling and release, with or without a TLS directory, leaves each address as often in the TLS list as the load's own model says, for every list |
| LoaderHelpers.FailedLoadRestoresTableIff | src/loader/Loader.cpp:173-216 | where the image was not in the table before, the entries and their order are as they were if and only if it was not the closing of the pages that failed after a slot was filled |
| LoaderHelpers.FailedLoadRestoresTlsIff | src/loader/Loader.cpp:180-216 | where the module was not listed before, the TLS list and the index bitmap are as they were if and only if it was not the hook's memory or the kernel that failed after the request was built |
| Lifecycle.UnmappedFailureDangles | src/loader/Loader.cpp:132-155 | a failed call without mapping, and no other failed call, hands out an address, and no module is there |
| Bookkeeping.RunConsistentIff | src/loader/Loader.cpp:47-285 | over every run from a consistent state, whatever fails and whatever address is used again, every memory module is in the loader lists, the inverted table, the TLS list and the index exactly as often as its flags say, and nothing else is, if and only if no load so far left its image in the table or the index and every entry that loads left in the TLS list has been taken |
| Bookkeeping.RunLeftovers | src/loader/Loader.cpp:47-285 | over every run, whatever fails and whatever address is used again, an image or a loader entry's address is in a structure as often as the modules' flags say and once more for each load that left it there, less what teardowns of modules without TLS directory took |
| Bookkeeping.RunKeepsSound | src/loader/Loader.cpp:47-285 | over every run the loader lists know exactly the mapped modules and the natively loaded ones, and every module is at least where its flags say |
| Bookkeeping.StepSurplus | src/loader/Loader.cpp:266-277 | one call: what a structure holds beyond the flags grows by what the call leaves and shrinks by what it takes |
| Bookkeeping.ConsistentMeans | src/loader/Loader.cpp:162-188 | in a consistent state a module's flags tell, in both directions, where it is, and how often |
| Bookkeeping.LeftoverStays | src/loader/Loader.cpp:257-280 | what loads left behind never gets less in the table and the index, and in the TLS list not unless a module without TLS directory, whose loader entry has the address, is torn down |
| Bookkeeping.NewAddressIsFree | src/loader/Loader.cpp:120 | in a consistent state an address where no image is, is in none of the structures, and neither is one where no loader entry is |
| ReferenceCounts.RunBalances | src/loader/Loader.cpp:108-114 | over every run, whatever fails and whatever address is used again, a module's count is its successful loads less its successful unloads |
| ReferenceCounts.PresentWhileBalanced | src/loader/Loader.cpp:247-256 | over every run, whatever fails and whatever address is used again, a module is there exactly while its loads outnumber its unloads |
| ReferenceCounts.TeardownAtBalance | src/loader/Loader.cpp:252-280 | over every run, whatever fails and whatever address is used again, teardown happens at one call only: the unload that balances the first load |
| Bookkeeping.LoadKeepsConsistentIff | src/loader/Loader.cpp:47-219 | a load, successful or not, keeps the bookkeeping if and only if it left nothing behind |
| Bookkeeping.SkippedTlsOutlivesModule | src/loader/Loader.cpp:180-189 | a load told not to fail on TLS succeeds although the hook or kernel failed, leaves the TLS entry listed without a flag, and the unload then frees the image and leaves the entry |
| LoaderExamples.SkippedTlsExample | src/loader/Loader.cpp:183 | such a load exists: into an empty process, with a kernel that refuses the TLS request |
| LoaderExamples.RetryExample | src/loader/Loader.cpp:180-189 | a concrete run: a refused TLS load, a successful retry at the same addresses, which lists a second entry, and its unload, which takes one of the two |
| LoaderExamples.TakenExample | src/loader/Loader.cpp:272-275 | a concrete run: a refused TLS load, a load without TLS directory whose loader entry has the same address, and its unload, which releases the entry that was left |
| Bookkeeping.UnloadKeepsConsistent | src/loader/Loader.cpp:221-285 | every unload keeps the bookkeeping |
| InvertedTable.InsertKeepsOrdered | src/loader/InvertedFunctionTable.cpp:14-39 | inserting keeps the searched range sorted, slot 0 in place, and overflow only when full |
| InvertedTable.RemoveKeepsOrdered | src/loader/InvertedFunctionTable.cpp:92-142 | removing keeps the same |
| InvertedTable.RemoveUndoesInsert | src/loader/InvertedFunctionTable.cpp:3-142 | removing an image that was just inserted restores the table |
| InvertedTable.StatusTellsInsertion | src/loader/InvertedFunctionTable.cpp:165-184 | with the pages protected as asked, the status is success if and only if the entry was added; a failing last protection reports failure after the fact |
| InvertedTable.RunKeepsOrdered | src/loader/InvertedFunctionTable.cpp:3-202 | over every run of public calls the searched range is sorted, slot 0 is fixed, and overflow means full |
| InvertedTable.RunCounts | src/loader/InvertedFunctionTable.cpp:3-202 | over every run what is in the table plus what was taken out is what was there plus what was put in |
| InvertedTables.RtlMoveMemory | src/loader/InvertedFunctionTable.cpp:23-25 | the overlapping block move |
| InvertedTables.Table64.RtlpInsertInvertedFunctionTable | src/loader/InvertedFunctionTable.cpp:7-39 | the 64-bit insertion is insertion into the list, or sets the flag when full |
| InvertedTables.Table64.RtlpRemoveInvertedFunctionTable | src/loader/InvertedFunctionTable.cpp:92-142 | the 64-bit removal is removal from the list, and clears the flag when not full |
| InvertedTables.Table64.FindSlot | src/loader/InvertedFunctionTable.cpp:18-21 | the search loop finds the first slot above the image |
| InvertedTables.Table64.FindImage | src/loader/InvertedFunctionTable.cpp:101-106 | the search loop finds the first slot of the image |
| InvertedTables.RtlInsertInvertedFunctionTable | src/loader/InvertedFunctionTable.cpp:165-184 | the public insertion on 64-bit builds: missing table, either protection failing, overflow |
| InvertedTables.RtlRemoveInvertedFunctionTable | src/loader/InvertedFunctionTable.cpp:186-202 | the public removal on 64-bit builds, either protection failing |
| InvertedTables.RtlInsertInvertedFunctionTable32 | src/loader/InvertedFunctionTable.cpp:165-184 | the same on 32-bit builds, in the shifted and in the plain layout |
| InvertedTables.RtlRemoveInvertedFunctionTable32 | src/loader/InvertedFunctionTable.cpp:186-202 | the same on 32-bit builds, in the shifted and in the plain layout |
| InvertedTables.PlainAdded | src/loader/InvertedFunctionTable.h:17-45 | on the plain layout, moving the records from k on up by one and filling in record k is insertion at k, the end and the start included |
| InvertedTables.PlainDropped | src/loader/InvertedFunctionTable.h:17-45 | on the plain layout, moving records down onto record k is deletion, whatever more is moved |
| InvertedTables.Table32.MoveUp | src/loader/InvertedFunctionTable.cpp:58-67 | both 32-bit block moves of the insertion are the plain layout's move |
| InvertedTables.Table32.MoveDown | src/loader/InvertedFunctionTable.cpp:116-125 | both 32-bit block moves of the removal are the plain layout's move, one record longer than needed |
| InvertedTables.Table32.Fill | src/loader/InvertedFunctionTable.cpp:70-84 | the 32-bit field assignments fill in one plain record |
| InvertedTables.Table32.RtlpInsertInvertedFunctionTable | src/loader/InvertedFunctionTable.cpp:41-87 | the 32-bit insertion, in the shifted and in the plain layout, is insertion into the list |
| InvertedTables.Table32.RtlpRemoveInvertedFunctionTable | src/loader/InvertedFunctionTable.cpp:92-142 | the 32-bit removal, in the shifted and in the plain layout, is removal from the list |
| TableFormat.WrittenIsRead | src/loader/InvertedFunctionTable.h:3-45 | a 32-bit table written as ntdll has it (four header words from Windows 8 on, three before, then four words an entry) is, in the loader's shifted declaration, the table of those entries with that flag and size |
| TableFormat.ReadIsWritten | src/loader/InvertedFunctionTable.h:3-45 | the other way round: in whatever the code leaves, header and entries are where ntdll looks for them |
| Relocation.ApplyAdds | src/loader/MemoryModule.cpp:216-218 | each relocated word has had its addend added once, in its width |
| Relocation.RelocationPreservesMeaning | src/loader/MemoryModule.cpp:189-231 | relocating the image linked at one base gives byte for byte the image linked at the other |
| Relocation.RebaseBackIsIdentity | src/loader/MemoryModule.cpp:189-231 | adding a difference and then its negative changes nothing |
| Relocation.WalksAgree | src/loader/ReflectiveLoader.c:331-410 | where every block that the size-bounded walk visits is followed in the end by a zero-size block and only types occur that the two walkers of the build treat alike, both find the same relocations, on 32-bit and 64-bit builds |
| Rebase.RelocateBySize | src/loader/MemoryModule.cpp:189-231 | the size-bounded loops, in place, leave the memory with every listed word relocated, or untouched when they are skipped; which words those are is PeRelocations.WalkDoesWhatIsAsked |
| Rebase.RelocateBySentinel | src/loader/ReflectiveLoader.c:331-410 | the sentinel-bounded loops, in place, on 32-bit and 64-bit builds, leave the memory with every listed word relocated; which words those are is PeRelocations.WalkDoesWhatIsAsked |
| Rebase.SizedBlock | src/loader/MemoryModule.cpp:212-228 | one block of the size-bounded walk |
| Rebase.SentinelBlock | src/loader/ReflectiveLoader.c:344-409 | one block of the sentinel-bounded walk |
| Rebase.SizedEntry | src/loader/MemoryModule.cpp:214-223 | one entry of the size-bounded walk |
| Rebase.SentinelEntry | src/loader/ReflectiveLoader.c:356-405 | one entry of the sentinel-bounded walk |
| Rebase.WalkersGiveOneMemory | src/loader/ReflectiveLoader.c:331-410 | on 32-bit and 64-bit builds both walkers leave the same memory, also for delta 0, where one skips and the other adds zero |
| Rebase.RebasePreservesMeaning | src/loader/MemoryModule.cpp:189-231 | on 32-bit and 64-bit builds, rebasing turns the image linked at its preferred base into the image linked at the base it got, for the sites the walk finds; PeRelocations.ListedRebasePreservesMeaning has the sites the written directory lists |
| Rebase.RebaseThereAndBack | src/loader/MemoryModule.cpp:189-231 | rebasing there and back is the identity, the second walk reading the relocated image |
| PeRelocations.WalkDoesWhatIsAsked | src/loader/MemoryModule.cpp:193-230 | for every relocation directory written as the PE format says, on 32-bit and 64-bit builds, the size-bounded walk (up to a block for page 0) and the sentinel-bounded walk make exactly one addition for each HIGHLOW (3) entry, in 4 bytes, and for each DIR64 (10) entry, in 8 bytes on 64-bit builds, at page plus offset and in order, and none for ABSOLUTE; the reflective walk also adds in 2 bytes for HIGH (1) and LOW (2) |
| PeRelocations.WrittenIsWellFormed | src/loader/MemoryModule.cpp:193-230 | such a directory whose sites are in the image, apart, and off the directory is well-formed, and its sites are those of its entries |
| PeRelocations.ListedRebasePreservesMeaning | src/loader/MemoryModule.cpp:189-231 | the memory loader's rebase turns the image linked at its preferred base, with the sites that its written directory lists, into the image linked at the base it got |
| PeRelocations.ListedReflectivePreservesMeaning | src/loader/ReflectiveLoader.c:323-410 | the reflective loader's walk does the same, on 32-bit and 64-bit builds, for directories of whole pointers |
| PeRelocations.SpacedMeans | src/loader/MemoryModule.cpp:216-218 | what is asked of the sites: no byte of one is outside the image or in the directory, and none belongs to two |
| PeFormat.Read64 | src/loader/MemoryModule.cpp:190 | a word in memory is its bytes, lowest first |
| Bytes.AddWordReads | src/loader/MemoryModule.cpp:216-218 | the += on a word in memory |
| Alignment.AlignIsLeastMultiple | src/loader/MemoryModule.cpp:15 | for a power of two, AlignValueUp is the least multiple not below the value, and it fits a DWORD when value + alignment - 1 does |
| Alignment.AndHighBits | src/loader/MemoryModule.cpp:15 | masking with all but the k low bits clears those |
| ImageMapping.MemoryLoadLibrary | src/loader/MemoryModule.cpp:56-239 | the status, the handle and the memory of every load, from header checks to rebase; what that is for a file written as the PE format says is PeLoad.FileIsLoaded |
| ImageMapping.CopyHeaders | src/loader/MemoryModule.cpp:139-149 | the headers are copied and only ImageBase is changed |
| ImageMapping.MapSections | src/loader/MemoryModule.cpp:155-187 | the section loop, reading the section table from the image it writes; what it finds there is PeImage.SectionsRead |
| ImageMapping.MapSection | src/loader/MemoryModule.cpp:158-184 | one section: its status, and its raw bytes in place |
| ImageMapping.MappingIsLayout | src/loader/MemoryModule.cpp:139-187 | before rebasing memory is the declarative layout: headers with only ImageBase changed, raw bytes at each section's address, zeros elsewhere; and the loop fails as the first failing section does; PeLoad.FileIsLoaded has the same in the fields of a written file |
| ImageMapping.SizeCheckRejectsIff | src/loader/MemoryModule.cpp:158-165 | a section is rejected as malformed if and only if some multiple of the alignment holds its virtual size but not its raw bytes |
| ImageMapping.LoadedIsLinked | src/loader/MemoryModule.cpp:56-239 | a mapped image linked at its preferred base is, once loaded, linked at the base it got |
| PeImage.ChecksOfHeaders | src/loader/MemoryModule.cpp:69-111 | for every file whose headers were written as the PE format says: an odd section alignment is malformed, another machine than x64 is refused, another image than a DLL is not supported, in this order, and everything else passes |
| PeImage.ChecksOfTruncated | src/loader/MemoryModule.cpp:69-111 | such a file cut short faults if and only if it ends before its SectionAlignment does |
| PeImage.ChecksOfDosSignature | src/loader/MemoryModule.cpp:76-80 | a file that does not begin with MZ is malformed |
| PeImage.ChecksOfNtSignature | src/loader/MemoryModule.cpp:85-90 | a file without PE where its word at 0x3C points is malformed |
| PeImage.BaseOfHeaders | src/loader/MemoryModule.cpp:116-133 | an image without DYNAMIC_BASE is tried at its preferred address first, and any other goes where the system puts it |
| PeImage.SectionsRead | src/loader/MemoryModule.cpp:155-187 | the loader finds in a written section table the VirtualSize, VirtualAddress, SizeOfRawData and PointerToRawData of each section |
| PeLoad.ReservationIsPages | src/loader/MemoryModule.cpp:118-131 | the reservation is the least number of whole pages that holds SizeOfImage bytes |
| PeLoad.SectionEndsSo | src/loader/MemoryModule.cpp:158-176 | one section of the table: malformed if its raw bytes exceed the least multiple of the alignment that holds its virtual size, no memory if that is nothing, outside the image or not granted, and mapped otherwise |
| PeLoad.FileIsLoadable | src/loader/MemoryModule.cpp:56-239 | a sound file, wherever the system puts it, meets all that MemoryLoadLibrary asks for, its relocation directory in one of its sections included |
| PeLoad.FileIsLoaded | src/loader/MemoryModule.cpp:56-239 | MemoryLoadLibrary on such a file: the status in terms of its fields, and on success whole pages with the file's headers and the new base, each section's SizeOfRawData bytes from PointerToRawData at its VirtualAddress, and zeros elsewhere, rebased from ImageBase |
| PeLoad.LoadedFileIsLinked | src/loader/MemoryModule.cpp:56-239 | if that is the image linked at ImageBase, with the sites that the written directory lists, what the load leaves is, byte for byte, the image linked at the base it got |
| PeLoad.UnmovedIsLaidOut | src/loader/MemoryModule.cpp:189-193 | an image that got the base it was linked at, or has no relocation directory, stays as it was laid out |
| Checksum.CalcCheckSum | src/loader/Utils.cpp:8-17 | the sum is 0 for all-zero words only, and otherwise the representative in [1, 0xFFFF] of the word sum modulo 0xFFFF |
| Checksum.CanonicalAdds | src/loader/Utils.cpp:12-13 | adding a word and folding the carry keeps the representative |
| Checksum.HeaderTakenOut | src/loader/Utils.cpp:22-25 | subtracting the header's halves with borrow leaves the sum of the other words modulo 0xFFFF |
| Checksum.CheckSumBufferedFile | src/loader/Utils.cpp:19-29 | accepts exactly when the checksum equals the sum without the header plus the length |
| Checksum.AcceptedIffProper | src/loader/Utils.cpp:19-29 | a non-zero checksum field, written among the words as its low and high half, is accepted if and only if it is the other words' sum modulo 0xFFFF plus the length, modulo 2^32, also when that sum is a multiple of 0xFFFF |
| Checksum.ZeroFieldDiffers | src/loader/Utils.cpp:84 | for a zero field, which the caller accepts unseen, the two differ exactly on positive multiples of 0xFFFF |
| PatternSearch.SearchContext.RtlFindMemoryBlockFromModuleSection | src/loader/BaseAddressIndex.cpp:10-117 | one call reports the next occurrence and how much of the section is left, or resets the context |
| PatternSearch.SearchContext.Begin | src/loader/BaseAddressIndex.cpp:39-81 | the first call finds the section and its bounds |
| PatternSearch.SearchContext.Scan | src/loader/BaseAddressIndex.cpp:87-109 | the linear search finds the first occurrence |
| PatternSearch.CallsEnumerate | src/loader/BaseAddressIndex.cpp:25-109 | repeated calls report every occurrence, overlapping ones included, in increasing order and each once, keep result + block size at the section's end, then say not found and leave a reset context |
| PatternSearch.HitsAreAll | src/loader/BaseAddressIndex.cpp:90-103 | the occurrences are all there are |
| PatternSearch.HitsIncrease | src/loader/BaseAddressIndex.cpp:90-103 | they are strictly increasing |
| SearchAnswers.ReportsAll | src/loader/BaseAddressIndex.cpp:39-109 | repeated calls report exactly the places, wholly inside the first section of the name (upper and lower case aside), where the pattern's bytes are in memory, and none in a section at address 0 |
| SearchAnswers.ReportsNothing | src/loader/BaseAddressIndex.cpp:54-81 | where no section has the name, nothing is reported |
| SearchAnswers.SearchAnswersSo | src/loader/BaseAddressIndex.cpp:10-117 | what a call answers and leaves: an empty pattern, a handle without headers, nothing left, or the next occurrence |
| PatternSearch.FindLdrpModuleBaseAddressIndex | src/loader/BaseAddressIndex.cpp:119-147 | the index is published if and only if the root is black, its pointer occurs exactly once in ntdll's data, and the tree has a root and a leftmost node |
| PatternSearch.RootOf | src/loader/BaseAddressIndex.cpp:124-126 | climbing the parents ends at the root |
| SearchAnswers.ClimbIsPath | src/loader/BaseAddressIndex.cpp:124-128 | for nodes written as balanced nodes are (children, then the parent with the colour in the lowest bit), the climb goes from parent to parent and ends at the root, whose colour is read off that bit |
| SearchAnswers.FindsTheIndex | src/loader/BaseAddressIndex.cpp:119-147 | where ntdll's data holds a tree with that root, and the root's address nowhere else, the index is found there if the root is black and the tree has a leftmost node, and left alone otherwise |
| SearchAnswers.KeepsTheIndex | src/loader/BaseAddressIndex.cpp:129-146 | where the root's address is nowhere in ntdll's data, or in two places, the index is left alone |
| BaseAddressTree.RtlInsertModuleBaseAddressIndexNode | src/loader/BaseAddressIndex.cpp:156-187 | a base that is present only has its counters raised; a new one is linked in so that the in-order sequence is the sorted insertion; an index that is not known is an error |
| BaseAddressTree.FindPlace | src/loader/BaseAddressIndex.cpp:164-183 | the descent ends at the base or at a free child slot |
| BaseAddressTree.DescendFinds | src/loader/BaseAddressIndex.cpp:164-183 | it ends at the base if and only if the base is in the tree |
| BaseAddressTree.AttachedInOrder | src/loader/BaseAddressIndex.cpp:185-186 | linking at the free slot is sorted insertion into the in-order sequence |
| BaseAddressTree.LinkedShape | src/loader/BaseAddressIndex.cpp:185-186 | the link makes the shape with the new leaf and changes nothing else |
| BaseAddressTree.RebalancedIsSearchTree | src/loader/BaseAddressIndex.cpp:185-186 | any rebalancing that keeps the in-order sequence leaves a search tree with the old bases and the new one |

## Left out

- Kernel, ntdll, detours, exceptions raised by unmapped memory (other than the header checks), page protection, locks
  and the loop that spins for the loader lock: contracts or nothing.
- The window in which a new thread's vector is registered but not yet complete: a thread start is one event, as the
  loader lock makes it.
- Growth of ntdll's vectors beyond the next multiple of eight slots: a request's vectors are taken to be at most that
  long, and zero above the new slot.
- TLS vectors are a map from address to slots, and heap blocks carry their owner as specification only.
- Failure of the postponed list itself, and the worker's waiting.
- `Dependencies.Graph.LdrUnloadDll`: recorded in a log; what a native unload does in turn is not part of this model.
- A section with no virtual size: committing nothing is taken to fail, so its image does not load.
- A relocation directory with a size but no address: `Rebase.WalkersGiveOneMemory` leaves it out, because one walker
  skips it and the other takes the image headers for a block.
- Overlapping relocations and relocations inside the directory: excluded, as the format does.
- `PeRelocations.ListedReflectivePreservesMeaning`: directories with HIGH or LOW entries, which change half of a
  pointer, are left out; what the walk adds for them is in `PeRelocations.WalkDoesWhatIsAsked`.
- A relocation block whose size is below its header: excluded; the code would walk on for 2^31 entries.
- Bytes outside the image memory: the header copy is taken to be committed, and a section that would be committed
  outside the reservation fails. A failed mapping keeps its reservation, which has no counterpart here.
- The final section protections, imports, and entry points: statuses in `Lifecycle`, nothing more.
- A removal from the inverted function table or the TLS list that fails during an unload: the code ends the process.
- A load at an address that an earlier load left in the index: the code would follow a freed node.
- Which of several entries for one address a removal or a release takes: the first, in `InvertedTable.Remove` and
  `TlsModules.DropEntry`; `Lifecycle` sees how many there are.
- `LoaderLists.FindLdrpHashTable`: a bucket whose links go round in modules of the right hash without coming back to
  the head is excluded, because the code would not return.
- The overflow flag that a full table keeps after it has turned a load away: `Lifecycle` sees who is in the table.
- Name hashes: a module's bucket is a parameter. File and module names compare by ASCII case.
- `ImageMapping.MemoryLoadLibrary`: 64-bit images only, because the 32-bit header differs in field offsets alone; and
  files that hold the headers and raw data they name, because the code reads past any other.
- `BaseAddressTree.RtlInsertModuleBaseAddressIndexNode`: without the rebalancing, which is a contract
  (`BaseAddressTree.RebalancedIsSearchTree`).
- The forwarder lists of Windows Vista and 7 entries, imports, .NET hooks, version tables, and steps 0 to 4 and 6 of
  the reflective loader: thin loops or data.
