# Models of the sanos run-time library

This project models the parts of the sanos C library and loader whose correctness
depends on long-lived state, index arithmetic or machine word bounds, and proves what
they are for. Each part comes in two layers: functions on values that say what an
operation means, with the theorems about them, and a class or methods that work in
place as the C code does and are proved to compute those functions.

- **Module database** (`ImportResolution`, `ModuleDatabase`, `ModuleRuns`, `ModuleSafety`,
  `ModuleCycles`, `ModuleOrder`, `EntryPoints`, `ModuleStore`, `ModuleList`): a circular list
  of records with reference counts. Loads, failed loads and unloads are steps of a state machine; the
  theorems hold in every reachable state. The class works on an explicit heap of records with next and prev
  links and follows recursion, loops and rollback of the loader.
- **Buffered streams** (`StreamSpec`, `StreamState`, `Stream`, `StreamRuns`,
  `StreamRefinement`, `StreamLaws`, `TextOutput`): a stream opened for update refines an array of bytes
  with a position, for every run of operations and every way the file delivers its bytes.
- **64-bit division** (`LongDivision`): quotient and remainder out of 32-bit words.
- **Resource maps** (`ResourceMap`, `ResourceSets`, `ResourceOperations`, `ResourceRuns`,
  `ResourceArray`): the list of free runs as a set of units.
- **Line editor** (`LineEditing`, `LineLaws`, `CompletionLaws`, `Terminal`, `LineEditor`):
  what keys do to the line, and the row of the terminal always shows the buffer.
- **Quicksort** (`SortSpec`, `QuickSort`): sorted permutation, and a stack of thirty slots.
- **Password cipher** (`CipherTables`, `CipherSpec`, `CipherRound`, `StandardCipher`, `StandardTables`,
  `BlockCipher`).
- **Calendar** (`Calendar`, `DayNumbers`, `TimeConversion`, `IsoWeek`).
- **Random numbers** (`RandomSpec`, `RandomRuns`, `RandomGenerator`, `RandomArrays`).
- **Remote debugging** (`DebugProtocol`, `DebugLaws`, `DebugSession`).
- **File name patterns** (`PatternSpec`, `PatternLaws`, `PatternMatch`).
- **Property files** (`PropertySpec`, `PropertyFormat`, `PropertyRoundTrip`, `PropertyFile`).

`Arithmetic`, `MachineWords` and `Options` hold what several of them share.

Where the code does not do what its comments or the general intent say, the model follows
the code:

- A failed `fseek` has dropped what was read ahead: the position is kept exactly when
  nothing was ahead or the stream was being written (`StreamState.SoughtMoves`);
  `StreamState.FailedSeekMoves` is a case where it moves.
- `rmap_status` reports a range that reaches the top of its free run as partly allocated
  (`ResourceOperations.StatusAtTop`); it answers 0 exactly when the unit after the range
  is free as well (`ResourceOperations.StatusExact`).
- `rmap_reserve` and `rmap_status` add offset and size, and offset and size of a run, in 32
  bits. A run that holds the last of the 2^32 units has a top of 0 and is passed by: ranges
  that start in it are refused, and reported as allocated, even when they are free. A range
  that starts elsewhere and wraps around is reserved whenever its first unit is free, and
  reported as free or as allocated whenever it is neither. In all other cases both are
  right (`ResourceOperations.ReserveExact`, `StatusExact`).
- `rmap_alloc_align` adds size and gap in 32 bits. A request with size + align of at most
  2^32 is treated rightly unless the run found holds the last unit. A larger request can
  never be met, and is refused as it should be unless the reservation at the place found
  wraps around (`ResourceOperations.AllocAlignExact`, `InnerReserve`).
- `ResourceOperations.ReserveWraps`, `AlignWraps` and `LastWordLost` are inputs where these
  go wrong. Only the first two spoil the map: the operations that do are exactly those that
  reserve a range that wraps around from a free unit (`ResourceRuns.StepKeepsInv`).
- `setstate` on the array already in use goes back to the rear pointer noted last, and so
  changes nothing exactly when that is the current one (`RandomGenerator.Rng.SetState`,
  `RandomRuns.HarmlessExact`); `RandomArrays.SameArray` is a case where it goes back.
  The comment above it says that such a call is always fine.

## Model

| member | source | states |
|---|---|---|
| `ImportResolution.ResolveSound` | src/lib/moddb.c:394-442 | Every module a resolution links in is loadable, was not there, is reached by imports, and is linked once; resolution ends on cyclic imports |
| `ImportResolution.ResolveExact` | src/lib/moddb.c:394-442 | Resolution succeeds exactly when everything transitively imported can be loaded, and then links exactly the missing modules |
| `ImportResolution.ResolveMissing` | src/lib/moddb.c:405-440 | A failed resolution has met a module that is needed and cannot be loaded |
| `ImportResolution.ResolveImported` | src/lib/moddb.c:394-442 | Each module linked in is named by a descriptor of the importer or of another new module |
| `ImportResolution.ResolveInDependencyOrder` | src/lib/moddb.c:394-442 | With acyclic imports every new module is linked after all the modules it imports |
| `ModuleRuns.DropOne` | src/lib/moddb.c:624 | Giving up one counted descriptor keeps all counts exact, and the count it takes from was positive |
| `ModuleRuns.ReleaseExact` | src/lib/moddb.c:616-630 | Releasing the descriptors of a dying module, with everything that becomes unused on the way, keeps the counts exact and no module in use is touched |
| `ModuleRuns.RemoveExact` | src/lib/moddb.c:602-648 | Removing a module whose count dropped to zero ends, keeps the counts exact, and removes no module that is still in use |
| `ModuleSafety.UnloadKeepsInv` | src/lib/moddb.c:832-844 | A balanced unload keeps the invariant, with one outstanding load less |
| `ModuleSafety.UnloadRemovable` | src/lib/moddb.c:832-844 | A module with an outstanding load is there with a positive count, and when the count reaches zero it may be removed |
| `ModuleSafety.SweepRestores` | src/lib/moddb.c:650-663 | The sweep after a failed load takes out exactly the modules of that load |
| `ModuleSafety.FailedLoadRestores` | src/lib/moddb.c:760-827 | A load that fails, wherever it fails, leaves the list and every count as they were |
| `ModuleSafety.UpdateAllExact` | src/lib/moddb.c:579-600 | Counting in the imports of the new modules keeps the counts exact, and counts every module with an import directory |
| `ModuleSafety.LoadNewKeepsInv` | src/lib/moddb.c:745-829 | A successful load keeps the invariant, with one outstanding load more, and appends the new run to the list |
| `ModuleSafety.LoadKeepsInv` | src/lib/moddb.c:697-830 | Every load, failed or not, keeps the invariant |
| `ModuleSafety.InitialInv` | src/lib/moddb.c:994-1060 | The database with only its root satisfies the invariant |
| `ModuleSafety.RunKeepsInv` | src/lib/moddb.c:697-844 | Every run of loads, failed loads and balanced unloads keeps the invariant |
| `ModuleSafety.CountsExact` | src/lib/moddb.c:579-844 | In every reachable state a count is the number of outstanding loads plus the number of counted descriptors that name the module |
| `ModuleSafety.NoDanglingImport` | src/lib/moddb.c:579-844 | In every reachable state everything a loaded module imports is loaded, and so is every module with an outstanding load |
| `ModuleSafety.EndlessImporters` | src/lib/moddb.c:602-648 | With no outstanding load, every module but the root is reached by imports from an import cycle that leaves out the root |
| `ModuleSafety.ReleaseAllLeavesRoot` | src/lib/moddb.c:602-844 | When all loads have been given up and imports are acyclic, only the root is left |
| `ModuleCycles.ReleaseSpares` | src/lib/moddb.c:616-630 | Releasing the descriptors of a dying module removes no module of a set whose members are named by counted descriptors of the set |
| `ModuleCycles.RemoveSpares` | src/lib/moddb.c:602-648 | Neither does the removal of a module whose count dropped to zero |
| `ModuleCycles.CycleSurvives` | src/lib/moddb.c:579-844 | Modules that hold each other by counted imports survive every run of loads, failed loads and unloads |
| `ModuleCycles.CycleCounted` | src/lib/moddb.c:579-600 | The modules of an import cycle, and of a path of imports from it, hold each other |
| `ModuleCycles.LeftByCycles` | src/lib/moddb.c:602-844 | What is left besides the root when all loads have been given up is reached from an import cycle and is never unloaded again |
| `ModuleSafety.LoadAppendsRun` | src/lib/moddb.c:760-829 | The new modules are one contiguous run at the end of the list: the module and exactly what it reaches, with dependencies first if imports are acyclic |
| `ModuleSafety.RunInOrder` | src/lib/moddb.c:394-442 | With acyclic imports the run has every module after its imports |
| `ModuleOrder.RemoveThins` | src/lib/moddb.c:602-648 | Removing a module, with all that goes with it, does not change the order of the modules left |
| `ModuleOrder.RunKeepsOrder` | src/lib/moddb.c:394-844 | Loads from libraries without import cycles, failed loads and unloads keep every module after what it imports |
| `ModuleOrder.DependenciesPrecede` | src/lib/moddb.c:394-844 | In every state such a run reaches, each module but the root comes after everything it imports in the list |
| `ModuleSafety.AttachOkIff` | src/lib/moddb.c:794-818 | The entry points succeed exactly when none of the modules called refuses |
| `ModuleSafety.LoadSucceedsIff` | src/lib/moddb.c:697-830 | A load succeeds exactly when the module is there already, or all it reaches can be loaded and every new module can be relocated, bound and initialized |
| `ModuleSafety.LoadNewIff` | src/lib/moddb.c:769-827 | For resolved imports a load succeeds exactly when all new modules pass relocation, binding and initialization |
| `EntryPoints.LoadMarks` | src/lib/moddb.c:794-829 | After a successful load of a new module each new module is marked as initialized exactly when it is a library, and not the module named when no initialization was asked for; every module that was there keeps its mark |
| `EntryPoints.EntriesExact` | src/lib/moddb.c:797-800 | The entry points a load calls are those of exactly these libraries |
| `EntryPoints.EntriesOnce` | src/lib/moddb.c:795-818 | None of them is called twice |
| `EntryPoints.EntriesInOrder` | src/lib/moddb.c:795-818 | They are called in the order of the list |
| `EntryPoints.EntriesAfterImports` | src/lib/moddb.c:394-818 | With acyclic imports an entry point is called after those of all new modules its library imports |
| `EntryPoints.CallingAll` | src/lib/moddb.c:803-812 | When no library refuses, each is called and accepts |
| `EntryPoints.CallingUntil` | src/lib/moddb.c:803-808 | Otherwise those before the first that refuses have accepted, it is called, and no other is |
| `EntryPoints.SweepCalls` | src/lib/moddb.c:602-818 | After a refusal exactly the libraries that had accepted are called again to detach, once each |
| `EntryPoints.TakenLast` | src/lib/moddb.c:609-648 | The removal of a module calls its own entry point and those of the running libraries that go with it, once each |
| `EntryPoints.LoadBalanced` | src/lib/moddb.c:697-830 | Over every load, failed or not, each library but the root has been attached as often as detached, and once more if it is marked |
| `EntryPoints.TakenBalanced` | src/lib/moddb.c:602-844 | So it is over every removal |
| `EntryPoints.AllDetached` | src/lib/moddb.c:602-844 | When all loads have been given up and imports are acyclic, every library has been detached as often as attached |
| `ModuleStore.InsertRepr` | src/lib/moddb.c:110-115 | Linking a record in before another one inserts it at that place of the list |
| `ModuleStore.RemoveRepr` | src/lib/moddb.c:124-127 | Unlinking a record takes it out of the list |
| `ModuleStore.LiveIsListed` | src/lib/moddb.c:293-350 | A record that is not met on the way round the list does not exist |
| `ModuleList.ModDb.constructor` | src/lib/moddb.c:994-1060 | Sets up the list with the root record alone, and no entry point called |
| `ModuleList.ModDb.InsertBefore` | src/lib/moddb.c:110-115 | Inserts a record into the circular list |
| `ModuleList.ModDb.GetModule` | src/lib/moddb.c:293-350 | Finds the record with a name, or none if there is none |
| `ModuleList.ModDb.ResolveImports` | src/lib/moddb.c:394-442 | Links the modules of the resolution in front of the importer, and gives the first record of the run |
| `ModuleList.ModDb.Require` | src/lib/moddb.c:405-438 | Makes sure a module is there, loading it and what it imports if needed |
| `ModuleList.ModDb.LoadDependency` | src/lib/moddb.c:408-436 | Creates, links and resolves one missing dependency |
| `ModuleList.ModDb.DropReference` | src/lib/moddb.c:620-625 | Drops one count and removes the module if it is no longer used, calling the entry points of exactly the running libraries that go |
| `ModuleList.ModDb.RemoveModule` | src/lib/moddb.c:602-648 | Removes a module and recursively what it no longer needs; its entry point is called first, then those of the other running libraries that go, once each |
| `ModuleList.ModDb.FreeUnusedModules` | src/lib/moddb.c:650-663 | Removes all modules without references, with the calls of these removals |
| `ModuleList.ModDb.UpdateCounts` | src/lib/moddb.c:579-600 | Counts the imports of a module once |
| `ModuleList.ModDb.BindModule` | src/lib/moddb.c:444-505 | Succeeds exactly when the module can be relocated and all its imports are in the list |
| `ModuleList.ModDb.BindRun` | src/lib/moddb.c:769-792 | Succeeds exactly when every module of the run can be bound |
| `ModuleList.ModDb.AttachRun` | src/lib/moddb.c:794-818 | Calls the entry points of the run in order, up to the first that refuses: the list of calls grows by exactly those |
| `ModuleList.ModDb.CallEntry` | src/lib/moddb.c:797-812 | Calls the entry point of one module if it is a library to be initialized; marks it if it accepts |
| `ModuleList.ModDb.Detach` | src/lib/moddb.c:609-614 | Calls the entry point of a module that is a running library |
| `ModuleList.ModDb.UpdateRun` | src/lib/moddb.c:821-827 | Counts the imports of every module of the run |
| `ModuleList.ModDb.LoadModule` | src/lib/moddb.c:697-830 | The load of the state machine, keeping the invariant and the balance of calls. A successful load of a new module has called exactly the libraries to be initialized, in list order; one that fails in an entry point has called those before the first refusal, that one, and the former again to detach; any other load has called none |
| `ModuleList.ModDb.LoadNewModule` | src/lib/moddb.c:745-829 | Loads a module that is not in the list, or restores the list, with these calls |
| `ModuleList.ModDb.CompleteLoad` | src/lib/moddb.c:769-829 | Binds, initializes and counts the run, or rolls it back, with these calls |
| `ModuleList.ModDb.FindHandle` | src/lib/moddb.c:145-157 | Finds the record of a handle, or says that there is none |
| `ModuleList.ModDb.UnloadModule` | src/lib/moddb.c:832-844 | The unload of the state machine, keeping the invariant and the balance of calls; exactly the running libraries that go are called to detach; an unknown handle is refused |
| `StreamSpec.OverlayJoin` | src/lib/stdio.c:666-757 | Writing two parts one after the other is writing both at once |
| `StreamSpec.ReadJoin` | src/lib/stdio.c:589-664 | Reading two parts one after the other is reading both at once |
| `StreamState.FilledUnseen` | src/lib/stdio.c:164-191 | Reading ahead into the buffer does not change what the stream stands for |
| `StreamState.TakenReads` | src/include/stdio.h:176 | Taking bytes out of the buffer is reading them from the array of bytes |
| `StreamState.PassedReads` | src/lib/stdio.c:624-645 | Reading past the empty buffer is reading from the array of bytes |
| `StreamState.FlushedUnseen` | src/lib/stdio.c:448-476 | Flushing is not seen exactly when the stream is being written or has nothing ahead |
| `StreamState.BegunWrites` | src/lib/stdio.c:193-257 | Starting a buffer with a byte is writing it |
| `StreamState.StoredWrites` | src/lib/stdio.c:691-700 | Storing bytes in the buffer is writing them |
| `StreamState.SoughtMoves` | src/lib/stdio.c:759-780 | A seek moves to its target exactly when that is not before the start; a failed one keeps the position exactly when nothing was read ahead, and otherwise leaves it where the file is |
| `StreamState.FailedSeekMoves` | src/lib/stdio.c:759-780 | A failing case: a file is opened, one byte is read with all of the file read ahead, and a seek to before the start fails but moves the position from 1 to the end |
| `StreamState.UngotPushes` | src/lib/stdio.c:855-886 | Pushing a byte back puts it in front of what is read next |
| `Stream.File.FilBuf` | src/lib/stdio.c:164-191 | Fills the buffer and gives the first byte, or end of file |
| `Stream.File.GetC` | src/include/stdio.h:176 | Gives the next byte of the array, or end of file at its end |
| `Stream.File.ReadSome` | src/lib/stdio.c:612-660 | Gives a part of what is to be read, nothing only at the end |
| `Stream.File.FRead` | src/lib/stdio.c:589-664 | Gives exactly the bytes of the array up to the count, and the number of whole elements: n elements are at most the bytes and n + 1 are more, and it is the number asked for exactly when all bytes are there |
| `Stream.File.FlsBuf` | src/lib/stdio.c:193-257 | Writes a byte when the buffer is full or has not been started |
| `Stream.File.PutC` | src/include/stdio.h:177 | Writes a byte at the position |
| `Stream.File.FFlush` | src/lib/stdio.c:448-476 | Afterwards the file has the contents of the array of bytes |
| `Stream.File.FWrite` | src/lib/stdio.c:666-757 | Writes exactly the bytes given at the position, and counts the elements in the same way |
| `Stream.File.FSeek` | src/lib/stdio.c:759-780 | Moves the position, flushing what was written; succeeds exactly when the target is not negative |
| `Stream.File.FTell` | src/lib/stdio.c:782-796 | Gives the position of the array of bytes, whatever is in the buffer |
| `Stream.File.UngetC` | src/lib/stdio.c:855-886 | Pushes a byte back, or refuses |
| `Stream.ProductExact` | src/lib/stdio.c:601 | The byte count of a call is size times number modulo 2^32, and so the number of bytes exactly when that fits 32 bits |
| `Stream.ElementsCount` | src/lib/stdio.c:589-757 | The number of whole elements, also when the byte count has wrapped around |
| `Stream.CountsOne` | src/lib/stdio.c:589-757 | No other number of elements is one |
| `StreamRefinement.Step` | src/lib/stdio.c:164-796 | One operation answers as the array of bytes does |
| `StreamRefinement.Execute` | src/lib/stdio.c:164-796 | Every run with a seek between reads and writes gives the bytes, positions and final file contents of the array of bytes |
| `StreamLaws.WriteExact` | src/lib/stdio.c:666-757 | A write puts its bytes at the position, fills a gap behind the end with zeros and leaves all other bytes |
| `StreamLaws.WriteThenRead` | src/lib/stdio.c:589-780 | Writing, going back by as much and reading gives the bytes written |
| `StreamLaws.ReadThenBack` | src/lib/stdio.c:589-796 | Going back by what was read gives the place where reading began; going to what ftell reports moves nothing |
| `StreamLaws.FromEnd` | src/lib/stdio.c:759-780 | From k bytes before the end exactly the last k bytes are read |
| `StreamLaws.ReadAll` | src/lib/stdio.c:589-664 | Read from the start a file gives all its bytes, in any pieces |
| `StreamLaws.PushedFirst` | src/lib/stdio.c:855-886 | A byte pushed back is read first, and then the stream is as it was |
| `TextOutput.TranslateJoin` | src/lib/stdio.c:133-162 | Translating line ends works byte by byte, whatever the chunks |
| `TextOutput.TranslateBack` | src/lib/stdio.c:133-162 | The text can be recovered from what is written |
| `TextOutput.FeedsReturn` | src/lib/stdio.c:133-162 | Every line feed written follows a carriage return, and one byte is added per line feed |
| `TextOutput.Device.WriteTranslated` | src/lib/stdio.c:133-162 | Writes the translated text |
| `LongDivision.EstimateOff` | src/lib/tcccrt.c:297-303 | The quotient word estimated from the leading words is too large by at most one, and the sign of what is left tells |
| `LongDivision.Estimate` | src/lib/tcccrt.c:297-311 | Quotient word and remainder of normalized numbers, with one correction at most; the divide instruction does not overflow |
| `LongDivision.Correct` | src/lib/tcccrt.c:300-309 | The comparison and the subtractions modulo two words give quotient and remainder |
| `LongDivision.DivideNormalized` | src/lib/tcccrt.c:287-313 | Division by a two-word number with leading zeros |
| `LongDivision.DivideByHalf` | src/lib/tcccrt.c:262-285 | Division by a number with its top bit set |
| `LongDivision.DivideByWord` | src/lib/tcccrt.c:170-189 | Division by one word, by one or two divide instructions that do not overflow |
| `LongDivision.UDivMod` | src/lib/tcccrt.c:153-321 | For every n and every d other than 0 the results are n / d and n % d |
| `LongDivision.QuotientTruncates` | src/lib/tcccrt.c:325-365 | Truncation toward zero is the only quotient whose remainder is smaller than the divisor and has the sign of the dividend |
| `LongDivision.Div` | src/lib/tcccrt.c:325-346 | The truncated quotient; only the least number divided by -1 wraps around |
| `LongDivision.Mod` | src/lib/tcccrt.c:348-365 | The remainder of the truncated quotient |
| `LongDivision.ShiftRightSigned` | src/lib/tcccrt.c:378-391 | Division by a power of two, rounded down |
| `LongDivision.ShiftRightLong` | src/lib/tcccrt.c:393-406 | Division of an unsigned number by a power of two |
| `LongDivision.ShiftLeftLong` | src/lib/tcccrt.c:408-422 | Multiplication by a power of two modulo 2^64 |
| `ResourceOperations.ReserveExact` | src/lib/rmap.c:218-284 | On every map: a reservation succeeds exactly when the whole range is free, takes the range (and without a slot for a split also the units below it), and changes nothing otherwise. This holds exactly when the range starts in a run that reaches the last word and goes beyond it, or starts elsewhere and does not reach the last word or has a first unit that is not free |
| `ResourceOperations.ReserveTop` | src/lib/rmap.c:228-230 | A range that starts in a run that reaches the last word is always refused |
| `ResourceOperations.ReserveWrapped` | src/lib/rmap.c:228-237 | Any other range that wraps around is reserved exactly when its first unit is free, although it is not free as a whole |
| `ResourceOperations.ReserveWraps` | src/lib/rmap.c:234-281 | An input where a range that is not free is reserved and the list is left out of order |
| `ResourceOperations.LossExact` | src/lib/rmap.c:259-268 | Which units a reservation out of a full map gives up |
| `ResourceOperations.StatusExact` | src/lib/rmap.c:292-323 | On every map: the status is 1 exactly for a range without free units, and 0 exactly for a free range with a free unit after it. This holds exactly when none of the range is free, or it does not reach the last word and does not start in a run that does |
| `ResourceOperations.StatusAtTop` | src/lib/rmap.c:312-318 | A free range that reaches the top of its run is reported as partly allocated |
| `ResourceOperations.AllocExact` | src/lib/rmap.c:102-126 | Allocation gives the lowest free range of the size, or fails exactly when there is none |
| `ResourceOperations.GapLeast` | src/lib/rmap.c:143-147 | No multiple of the alignment lies in the gap |
| `ResourceOperations.AllocAlignExact` | src/lib/rmap.c:134-160 | On every map: aligned allocation gives the lowest aligned free range, or fails and changes nothing exactly when there is none. This holds exactly when no run is found; or size + align is at most 2^32 and the run found does not reach the last word; or size + align is more and the place found is in a run that does, is not free, or does not wrap around |
| `ResourceOperations.InnerReserve` | src/lib/rmap.c:151-159 | With size + align at most 2^32 the inner reservation fails exactly when the run found reaches the last word; with more there is no aligned range to be had |
| `ResourceOperations.AlignWraps` | src/lib/rmap.c:142-155 | An input where size and gap wrap around: a range that is not free is handed out, and the list is left out of order |
| `ResourceOperations.LastWordLost` | src/lib/rmap.c:134-323 | An input for all three: the last units are released into an empty map, and then a reservation and an aligned allocation of them are refused and they are reported as allocated |
| `ResourceOperations.FreeExact` | src/lib/rmap.c:169-210 | Releasing a range, up to and with the last word, adds exactly its units; it is lost exactly when it abuts no run and there is no slot |
| `ResourceRuns.StepKeepsInv` | src/lib/rmap.c:102-284 | An operation keeps runs sorted, non-empty, apart and within the slots, every unit free, used or lost, and the count of lost units exact. It does so exactly when it makes no reservation that wraps around from a free unit of a run below the last word |
| `ResourceRuns.SafeHarmless` | src/lib/rmap.c:134-284 | Every reservation and aligned allocation that does what it is for is of that kind, and so is every aligned allocation with size + align at most 2^32 |
| `ResourceRuns.RunKeepsInv` | src/lib/rmap.c:57-284 | Every run of such operations without double release keeps all of that |
| `ResourceRuns.Conservation` | src/lib/rmap.c:49-284 | Over every such run free sizes, units in use and lost units add up to all units, which may be any from 1 to 2^32 - 1 |
| `ResourceArray.RMap.constructor` | src/lib/rmap.c:57-61 | An empty map |
| `ResourceArray.RMap.MakeSpace` | src/lib/rmap.c:69-83 | Makes room for a slot, unless all are taken |
| `ResourceArray.RMap.Collapse` | src/lib/rmap.c:89-94 | Takes a slot out |
| `ResourceArray.RMap.Alloc` | src/lib/rmap.c:102-126 | The allocation on the array of slots |
| `ResourceArray.RMap.AllocAlign` | src/lib/rmap.c:134-160 | The aligned allocation on the array of slots |
| `ResourceArray.RMap.Free` | src/lib/rmap.c:169-210 | The release on the array of slots |
| `ResourceArray.RMap.Reserve` | src/lib/rmap.c:218-284 | The reservation on the array of slots |
| `ResourceArray.RMap.Status` | src/lib/rmap.c:292-323 | The status from the array of slots |
| `LineEditing.LikeExact` | src/lib/readline.c:82-104 | The matcher for completions agrees with the declarative meaning of masks |
| `LineEditing.StepFits` | src/lib/readline.c:225-431 | Every key keeps the cursor inside the text and the text one short of the buffer |
| `LineEditing.BackspaceUndoes` | src/lib/readline.c:344-421 | Backspace takes back a character that was inserted |
| `LineEditing.CompleteFirst` | src/lib/readline.c:242-271 | Names are offered one after the other, skipping those that do not match or fit |
| `LineLaws.RunEnters` | src/lib/readline.c:219-432 | The line entered is what the keys make of it one by one |
| `LineLaws.TypeInserts` | src/lib/readline.c:411-421 | A text typed in insert mode goes in at the cursor |
| `LineLaws.TypeReplaces` | src/lib/readline.c:422-430 | A text typed in overwrite mode takes the place of what is there |
| `LineLaws.TypeEnter` | src/lib/readline.c:202-432 | What is typed is what is entered |
| `LineLaws.TypeFull` | src/lib/readline.c:411-421 | In insert mode what does not fit is left out |
| `LineLaws.OverwriteTypes` | src/lib/readline.c:340-430 | In overwrite mode a text typed from the start takes the place of the one typed before |
| `LineLaws.MovesKeep` | src/lib/readline.c:279-327 | Moving changes nothing but the cursor |
| `LineLaws.HomeTypes` | src/lib/readline.c:279-430 | After any moves and home, a text goes before all that was typed |
| `LineLaws.EndTypes` | src/lib/readline.c:279-430 | After any moves and end, a text goes behind all that was typed |
| `LineLaws.LeftsRights` | src/lib/readline.c:279-291 | Going left and as often right restores the line |
| `LineLaws.WordMoves` | src/lib/readline.c:293-313 | Going a word left stops at its start, going a word right behind the blank that follows it |
| `LineLaws.LeftDel` | src/lib/readline.c:279-355 | Going left and deleting is a backspace |
| `LineLaws.Backspaces` | src/lib/readline.c:344-355 | Backspaces take what stands before the cursor |
| `LineLaws.TypeBackspaces` | src/lib/readline.c:344-421 | A text and as many backspaces leave the line as it was |
| `LineLaws.EscapeClears` | src/lib/readline.c:357-368 | Escape clears the line, or ends the call when it is to break |
| `LineLaws.EofEnds` | src/lib/readline.c:370-372 | The end-of-file key ends the call on an empty line and does nothing on any other |
| `LineLaws.InsTwice` | src/lib/readline.c:340-342 | Changing the mode twice changes nothing |
| `LineLaws.Ups` | src/lib/readline.c:380-392 | k times up shows the line entered k calls ago, as far as it fits |
| `LineLaws.UpDown` | src/lib/readline.c:380-406 | Up and then down returns to the line shown before |
| `LineLaws.HistoryEnds` | src/lib/readline.c:380-406 | Up at the oldest line and down at the latest one change nothing |
| `LineLaws.LastLineFirst` | src/lib/readline.c:63-392 | The line entered last is the first to come back |
| `CompletionLaws.MaskIsPrefix` | src/lib/readline.c:82-141 | For a word without wildcards the names that match are those that start with it |
| `CompletionLaws.TabCompletes` | src/lib/readline.c:225-272 | The tab key puts the first fitting name that starts with the last component of the word at the cursor in its place, with the cursor behind it, and leaves the rest |
| `CompletionLaws.TabKeeps` | src/lib/readline.c:225-272 | When no name starts with it, or the directory is not there, the line stays |
| `LineEditing.AddHistoryOk` | src/lib/readline.c:63-80 | The history stays bounded, without empty or repeated lines, and ends with the line added |
| `Terminal.Repaint` | src/lib/readline.c:255-265 | Writing the new text and blanks over the old one makes the row show the new text |
| `Terminal.ShowsBehind` | src/lib/readline.c:202-218 | What the editor shows behind a prompt leaves the prompt in place |
| `LineEditor.Editor.MoveWordLeft` | src/lib/readline.c:293-302 | Moves to the start of the word, the row showing the text |
| `LineEditor.Editor.MoveWordRight` | src/lib/readline.c:304-313 | Moves behind the word, the row showing the text |
| `LineEditor.Editor.DeleteHere` | src/lib/readline.c:329-338 | Deletes the character at the cursor, from the buffer and from the row |
| `LineEditor.Editor.ClearLine` | src/lib/readline.c:363-365 | Blanks the row |
| `LineEditor.Editor.ShowHistory` | src/lib/readline.c:380-406 | Recalls a line, cut to the buffer |
| `LineEditor.Editor.TypeChar` | src/lib/readline.c:411-430 | Inserts or overwrites, in the buffer and in the row |
| `LineEditor.Editor.PutName` | src/lib/readline.c:246-265 | Puts a name in the place of the word, in the buffer and in the row |
| `LineEditor.Editor.FindWord` | src/lib/readline.c:232-238 | The word at the cursor and its last component |
| `LineEditor.Editor.MakeMask` | src/lib/readline.c:128-141 | The mask for a word |
| `LineEditor.LikeName` | src/lib/readline.c:82-104 | Matches a name against a mask |
| `LineEditor.Editor.AddToHistory` | src/lib/readline.c:63-80 | Adds a line to the history |
| `LineEditor.Editor.Handle` | src/lib/readline.c:278-431 | Every key does to the line what editing says, with the laws above, and the row shows the result |
| `LineEditor.Editor.Offer` | src/lib/readline.c:242-272 | Offers names for as long as tab is pressed |
| `LineEditor.Editor.CompleteWord` | src/lib/readline.c:225-276 | Completes the word at the cursor |
| `LineEditor.Editor.EditLine` | src/lib/readline.c:219-432 | For every sequence of keys the line, the cursor and the row are those of the editing function |
| `LineEditor.Editor.ReadLine` | src/lib/readline.c:202-439 | What a call returns, leaves in the buffer with its final zero, on the row behind any prompt, and in the history |
| `SortSpec.Advance` | src/lib/qsort.c:54-105 | Sorting or splitting one segment keeps the array sorted but for pending segments |
| `SortSpec.HalvingPush` | src/lib/qsort.c:75-97 | Pushing the larger part keeps the segment in slot i at most 1/2^i of the array |
| `SortSpec.RoomOnStack` | src/lib/qsort.c:45-97 | A segment longer than the cutoff of an array with 32-bit length leaves room on the stack |
| `SortSpec.PartsResolved` | src/lib/qsort.c:66-97 | After a partition only the pairs inside one of the two parts may be out of order |
| `QuickSort.ShortSort` | src/lib/qsort.c:108-117 | Sorts a segment and permutes nothing else |
| `QuickSort.Partition` | src/lib/qsort.c:60-73 | Splits a segment around a pivot |
| `QuickSort.PushParts` | src/lib/qsort.c:75-105 | Pushes the larger part and goes on with the smaller one |
| `QuickSort.Round` | src/lib/qsort.c:54-105 | One round keeps all of that, within thirty slots, and leaves fewer elements to sort |
| `QuickSort.Sort` | src/lib/qsort.c:39-106 | For every total preorder the result is sorted and a permutation |
| `CipherSpec.RoundBack` | src/lib/crypt.c:265-304 | A round on the flipped result takes a round back |
| `CipherSpec.RoundsBack` | src/lib/crypt.c:257-304 | The rounds in opposite order take all rounds back |
| `CipherSpec.DecipherEncipher` | src/lib/crypt.c:241-308 | For every block, key schedule and bit selection, deciphering undoes enciphering and the other way round |
| `CipherRound.PlaceExact` | src/lib/crypt.c:277-284 | The outer bits of a group choose one of four rows of a selection function, the inner bits one of sixteen columns |
| `CipherSpec.DigitsWrite` | src/lib/crypt.c:285-289 | The four bits of a selection write the selected number, the highest first |
| `CipherRound.ChosenWrite` | src/lib/crypt.c:277-289 | Bits 4j to 4j + 3 of the selections write the number in the chosen row and column of function j |
| `CipherRound.SelectingExact` | src/lib/crypt.c:269 | The selecting bits are the right half, selected by E and added to the key |
| `CipherRound.RoundExact` | src/lib/crypt.c:265-296 | For every table, key and block a round makes the old right half the left one, and changes the old left half by the eight numbers chosen, each bit where the permutation puts it |
| `CipherRound.SaltCharValue` | src/lib/crypt.c:329-331 | The characters ./0-9A-Za-z of a salt have the values 0 to 63 |
| `CipherSpec.SaltedGood` | src/lib/crypt.c:326-339 | The salt keeps the bit selection in range, and applying it twice changes nothing |
| `StandardCipher.PermutationsInverse` | src/lib/crypt.c:37-63 | The final permutation takes back the initial one, and the other way round |
| `StandardCipher.ShiftsTurn` | src/lib/crypt.c:87-89 | The rotations of the schedule make one full turn |
| `StandardTables.SelectionsPermuted` | src/lib/crypt.c:180-220 | Each row of each selection function is a permutation of 0 to 15 |
| `StandardTables.PermutesAll` | src/lib/crypt.c:226-235 | The permutation puts every bit somewhere |
| `StandardTables.ExpansionExact` | src/lib/crypt.c:126-135 | The selection takes each group of four bits with its neighbours on both sides |
| `StandardTables.InitialExact` | src/lib/crypt.c:38-47 | The initial permutation takes the even bits of the bytes and then the odd ones, the last byte first |
| `StandardTables.LoadExact` | src/lib/crypt.c:69-81 | The key registers are loaded column by column, and never with a parity bit |
| `StandardTables.ShiftsExact` | src/lib/crypt.c:87-89 | The registers turn by one place before rounds 1, 2, 9 and 16 and by two before the others |
| `StandardCipher.StandardGood` | src/lib/crypt.c:37-239 | The tables are fit for the theorems |
| `BlockCipher.Sched.SetKey` | src/lib/crypt.c:141-173 | Each bit of the schedule is one given bit of the key, and the registers return to their start |
| `BlockCipher.Sched.Salt` | src/lib/crypt.c:326-339 | Exchanges the entries the salt names |
| `BlockCipher.Sched.OneRound` | src/lib/crypt.c:265-296 | One round in place: the halves change places, and the new right half has been changed by the eight numbers that the selecting bits choose |
| `BlockCipher.Sched.Encrypt` | src/lib/crypt.c:241-308 | Enciphers or deciphers a block in place |
| `Calendar.ClosedFormExact` | src/lib/time.c:196-200 | The closed form of the day count is the sum over the years |
| `Calendar.SameFields` | src/lib/time.c:87-115 | Normal fields that stand for the same second are equal |
| `Calendar.SinceEpoch` | src/lib/time.c:182-183 | The years from 1970 on are the times from the Epoch on |
| `DayNumbers.DaysToExact` | src/lib/time.c:196-200 | The days to any year are 365 per year and the leap years between |
| `DayNumbers.DaysBeforeExact` | src/lib/time.c:82-85 | The days before a month in closed form, which fixes the length of every month |
| `DayNumbers.Cycle` | src/lib/time.c:82-115 | The calendar repeats every 400 years, to the day of the week |
| `DayNumbers.DayExact` | src/lib/time.c:87-115 | Normal fields stand for the day with their day number, counted from 1 January of year 1, with its day of the week and of the year |
| `TimeConversion.GmTime` | src/lib/time.c:87-115 | The fields are in range, fit together, stand for the time given, and are the date whose number is that of the Epoch plus the days of the time |
| `TimeConversion.LocalTime` | src/lib/time.c:117-122 | The same for local time |
| `TimeConversion.Carry` | src/lib/time.c:142-165 | Carrying out of a field rounds down, for negative values as well |
| `TimeConversion.Normalize` | src/lib/time.c:142-181 | Fields in any range are brought into range without changing the second they stand for |
| `TimeConversion.CountYears` | src/lib/time.c:193-200 | The day count and its overflow checks |
| `TimeConversion.AddUp` | src/lib/time.c:214-238 | The time, or -1 exactly when it cannot be represented |
| `TimeConversion.MkTime` | src/lib/time.c:134-239 | Normal fields for the same second, and the time they stand for or -1 exactly when there is none |
| `TimeConversion.LocalRoundTrip` | src/lib/time.c:117-239 | Converting a time to local time and back gives the same time |
| `TimeConversion.NormalForm` | src/lib/time.c:87-239 | Breaking down the time of any fields gives the fields that were written back |
| `IsoWeek.Week` | src/lib/strftime.c:196-231 | Year and week of a day: the week contains the day, belongs to the year of its Thursday and is counted from the first Thursday; two rounds at most |
| `IsoWeek.WeekUnique` | src/lib/strftime.c:196-231 | A day belongs to one week of one year |
| `IsoWeek.FourthOfJanuary` | src/lib/strftime.c:196-231 | 4 January is always in week 1 of its year |
| `IsoWeek.WeekOfMonday` | src/lib/strftime.c:196-231 | A week goes from Monday to Sunday, and the next Monday starts the next week or week 1 of the next year |
| `RandomSpec.GoodRand` | src/lib/random.c:189-199 | Every intermediate value fits a word, and the result is not negative |
| `RandomSpec.GoodRandExact` | src/lib/random.c:180-199 | Multiplication by 16807 modulo 2^31 - 1, never 0 |
| `RandomSpec.NextLinked` | src/lib/random.c:406-428 | The front pointer stays as far ahead as the kind says, and both never wrap on one call |
| `RandomSpec.WindowSlides` | src/lib/random.c:406-428 | A call replaces the oldest word by its sum with the word made sep calls ago |
| `RandomSpec.DrawnExact` | src/lib/random.c:406-428 | The numbers are the upper bits of y(n) = y(n-deg) + y(n-sep) modulo 2^32 |
| `RandomSpec.AddExact` | src/lib/random.c:415 | The sum of words modulo 2^32 |
| `RandomSpec.UpperExact` | src/lib/random.c:416 | A number drawn is a word without its lowest bit |
| `RandomSpec.Trinomial` | src/lib/random.c:89-428 | The kinds follow x^7 + x^3 + 1, x^15 + x + 1, x^31 + x^3 + 1 and x^63 + x + 1 |
| `RandomSpec.SeedWordExact` | src/lib/random.c:213-224 | The words of a seed are successive values of the multiplicative generator |
| `RandomSpec.SeededPointers` | src/lib/random.c:221-226 | The discards leave the rear pointer at 0 and the front pointer at its distance |
| `RandomRuns.HarmlessExact` | src/lib/random.c:354-386 | A call leaves all generators alone, but for the number it draws, exactly when it does not go over to the array in use with another rear pointer than the one noted |
| `RandomRuns.SwitchingHarmless` | src/lib/random.c:354-428 | In every run of such calls each generator gives the numbers it would have given alone |
| `RandomArrays.DrawNumber` | src/lib/random.c:406-428 | Drawing from the array in use is the step of the run, with the other arrays as they were |
| `RandomArrays.SwitchTo` | src/lib/random.c:354-386 | setstate on any of the arrays is the step of the run: the old array holds its generator, the new one gives its own |
| `RandomArrays.Perform` | src/lib/random.c:354-428 | Every sequence of calls of random and setstate on distinct arrays draws from each array the numbers of the run |
| `RandomArrays.Interleave` | src/lib/random.c:336-428 | Switching between distinct arrays gives from each the numbers its generator, as saved in the array, gives without interruption |
| `RandomArrays.SameArray` | src/lib/random.c:291-428 | A failing case: initstate, one number, and setstate on the same array take the rear pointer back from 1 to 0 |
| `RandomGenerator.Rng.constructor` | src/lib/random.c:133-176 | The generator a program starts with, on a given table of the third kind |
| `RandomGenerator.Rng.Random` | src/lib/random.c:406-428 | Draws a number and advances the generator in use only |
| `RandomGenerator.Rng.SRandom` | src/lib/random.c:213-227 | The generator that belongs to a seed |
| `RandomGenerator.Rng.InitState` | src/lib/random.c:291-335 | Saves the generator in use and sets up the largest kind the array has room for |
| `RandomGenerator.Rng.SetState` | src/lib/random.c:354-386 | Saves the generator in use and restores the one of the array, whose note stays; for the array in use note and pointer are exchanged, and nothing changes exactly when they agree |
| `DebugProtocol.DecodeEncode` | utils/dbggw/rdp.c:84-160 | For every data and escape byte, decoding what was encoded gives the data back and stops right behind it |
| `DebugProtocol.Balanced` | utils/dbggw/rdp.c:177-184 | A packet as it is sent sums up to zero |
| `DebugProtocol.ReceivePacket` | utils/dbggw/rdp.c:166-221 | A packet after noise without signatures is received as it was sent |
| `DebugProtocol.ReceiveAll` | utils/dbggw/rdp.c:166-221 | Packets with such noise before them are received in order |
| `DebugLaws.GoodIsSound` | utils/dbggw/rdp.c:194-221 | A packet taken as good was on the line after noise, with its header and data in code, within the limit and with the sum zero |
| `DebugLaws.HeaderNoticed` | utils/dbggw/rdp.c:194-221 | A packet with another command, identifier or checksum is refused |
| `DebugLaws.DataNoticed` | utils/dbggw/rdp.c:194-221 | A packet with one other byte in its data is refused |
| `DebugLaws.QuietUnchanged` | utils/dbggw/rdp.c:84-122 | Data without escape bytes and without three equal bytes in a row goes out as it is |
| `DebugLaws.EncodeRuns` | utils/dbggw/rdp.c:84-122 | More than three equal bytes go out as runs of at most 256, three bytes each |
| `DebugLaws.EncodeBound` | utils/dbggw/rdp.c:84-122 | Code is at most three times as long as the data |
| `DebugSession.Session.SendRle` | utils/dbggw/rdp.c:84-122 | Sends the run-length code of the data |
| `DebugSession.Session.RecvRle` | utils/dbggw/rdp.c:128-160 | Receives as many bytes as asked for, reading no further |
| `DebugSession.Session.SendPacket` | utils/dbggw/rdp.c:166-188 | Sends a packet |
| `DebugSession.Session.RecvPacket` | utils/dbggw/rdp.c:194-221 | Receives a packet, or reports a length beyond the limit or a wrong sum |
| `PatternSpec.MatchesSplit` | src/lib/fnmatch.c:45-49 | Matching means that the string can be split into pieces that match the tokens |
| `PatternSpec.StarStar` | src/lib/fnmatch.c:75-77 | Two stars match what one star does |
| `PatternSpec.StarLast` | src/lib/fnmatch.c:86-91 | A star at the end matches anything, but no slash in a path |
| `PatternSpec.StarSlash` | src/lib/fnmatch.c:92-95 | In a path a star before a slash reaches to the next slash |
| `PatternLaws.TokensBack` | src/lib/fnmatch.c:51-156 | Every list of tokens, with any brackets, is what its text is read as |
| `PatternLaws.PlainTokens` | src/lib/fnmatch.c:51-126 | A text without special characters stands for itself |
| `PatternLaws.QuotedMatchesItself` | src/lib/fnmatch.c:109-119 | A quoted text matches exactly itself |
| `PatternLaws.OneExact` | src/lib/fnmatch.c:65-156 | A question mark is any character, a bracket exactly one in its ranges or, negated, in none; in a path neither is a slash |
| `PatternLaws.SlashesMatched` | src/lib/fnmatch.c:65-126 | In a path every slash of the string is matched by one of the pattern |
| `PatternMatch.RangeMatch` | src/lib/fnmatch.c:128-156 | Reads a bracket, and whether it matches a character |
| `PatternMatch.TryAll` | src/lib/fnmatch.c:97-103 | Trying all places is what a star means |
| `PatternMatch.FnMatch` | src/lib/fnmatch.c:51-126 | Matches exactly when the string has a split that matches the tokens |
| `PropertyRoundTrip.ParseClean` | src/lib/inifile.c:173-263 | Names and values are without anything that would be read differently when written out |
| `PropertyFormat.ReadLines` | src/lib/inifile.c:173-263 | A text of comments, blank lines, heads and properties, with any blanks around them and either line end, is read as what its lines mean |
| `PropertyFormat.EscapedBack` | src/lib/inifile.c:47-90 | A circumflex and two hexadecimal digits give the character |
| `PropertyRoundTrip.ReadBack` | src/lib/inifile.c:267-289 | Sections with such names and values are read back as they were written |
| `PropertyRoundTrip.RoundTrip` | src/lib/inifile.c:173-289 | Reading what is written for a text gives the sections of the text |
| `PropertyFile.TrimStr` | src/lib/inifile.c:47-90 | Trims a text and replaces escapes |
| `PropertyFile.ReadProperty` | src/lib/inifile.c:225-254 | Splits a line at its first separator |
| `PropertyFile.ReadStep` | src/lib/inifile.c:186-259 | Reads one comment, blank line, section or property |
| `PropertyFile.ParseProperties` | src/lib/inifile.c:173-263 | Reads a whole text |
| `PropertyFile.ListProperties` | src/lib/inifile.c:267-289 | Writes sections out |

## Left out

- Module names: canonical names, search paths, aliases and file types; a module is its canonical name and its import descriptors.
- Module images: parsing, thunk binding, relocation, page protection and resources; whether a module can be relocated, bound and initialized is given.
- Module loads with `MODLOAD_NOSHARE`, scripts, modules that cannot be shared, and entry points that load or unload modules themselves.
- Module flags other than the two that record counted imports and a called entry point; allocation failure.
- Streams: unbuffered and line buffered streams, append mode, string streams, device errors, and switching between reading and writing without a seek.
- `Stream.File.Read`: a read of the file delivers any non-empty part of what is asked for, chosen freely; nothing is delivered only at the end.
- 64-bit helpers: conversions from and to floating point.
- `ResourceOperations.FreeExact`: index 0 and the last unit do not become free together; the code demands more, that index 0 is never released.
- `ResourceRuns.Conservation`: unit 0 is not managed, since index 0 stands for failure; one map has the counter of lost units to itself, whose value the C code shares between all maps.
- `LineEditor.Editor.ReadLine`: keys are decoded already, the row has no right margin, and history and directory hold no control characters, which a terminal would not show as one cell.
- `QuickSort.Sort`: works on elements; the byte-wise swap of elements of a given width is not modelled.
- Passwords: packing of the password into key bits, the 25 rounds of encryption and the encoding of the result.
- `TimeConversion.MkTime`: fields are unbounded, so sums of fields that overflow an int are not modelled, nor is the count of days of a far year, which in C overflows and leaves another day of the week behind before -1 is returned; time zone names are left out.
- `IsoWeek.Week`: the number is given and not formatted; the other conversions of `strftime` are left out.
- Random numbers: that the built-in table is what `initstate(1, randtbl, 128)` produces, and seeding from a device.
- `DebugSession.Session.RecvRle`: a run that goes on beyond the data has no answer; in C it is written behind the data.
- `DebugSession.Session.RecvPacket`: a read waits for its bytes, so input that ends inside a packet, or a run that goes on beyond the data, has no answer; requests, events and the commands of the protocol are left out.
- `PatternMatch.FnMatch`: `FNM_PERIOD` is clear.
- `PropertyFile.ParseProperties`: the linked lists of sections and properties are sequences; lookup by name is left out.
- `PropertyRoundTrip.RoundTrip`: for texts without circumflexes, since escapes are not written back, and with names that are present, since the writer needs them.
