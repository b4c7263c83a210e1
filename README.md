# Hercules Dynamic Loader registry, modelled in Dafny

This project models the bookkeeping core of the Hercules Dynamic Loader
(`hdl.c`). The loader keeps the following structures:

- a chain of loaded modules, newest first, with the resident `*Hercules`
  module always last;
- for each module, a list of entry points with load counts;
- for each module, a list of device-type handlers;
- for each module, a list of instruction bindings;
- a global dependency ledger of `(name, version, size)` records;
- the opcode dispatch tables, with one routine per architecture;
- a LIFO list of shutdown calls.

The operations over these structures are:

- `hdl_adsc`, `hdl_rmsc` and `hdl_shut` for the shutdown list;
- `hdl_dadd` and `hdl_dchk` for the dependency ledger;
- `hdl_regi`, `hdl_fent` and `hdl_nent` for the entry-point resolver;
- `hdl_dvad`, `hdl_fhnd`, `hdl_bdnm` and `hdl_ghnd` for device handlers;
- `hdl_didf`, `hdl_modify_opcode` and `hdl_modify_optab` for the opcode
  patcher;
- `hdl_load` and `hdl_dele`, which load and unload a module;
- the set-up part of `hdl_main`, and the calling order of `hdl_term`.

Foreign parts of the program are parameters of the model:

- `dlopen` is a map `Library` from names to `Binary` descriptors.
- A `Binary` holds everything a module's sections do when the loader calls
  them:
  - the dependency triples it declares or checks;
  - the entry points its initialiser registers;
  - the names its resolver asks for;
  - the device types and instructions it registers;
  - what its final section returns;
  - the symbols `dlsym` finds in it.
- The handlers of the valid devices are a set `active`.
- The architectures compiled in (`_370`, `_390`, `_900`) are a set
  `config`.

Files:

- `hdl_types.dfy` holds the shared datatypes: addresses, flags,
  architectures, module descriptors and binaries. It also holds the
  string helpers for base names and case folding.
- `shutdown.dfy` holds the class `ShutdownList` (`hdl_shdlist`) and its
  specification functions.
- `dependency.dfy` holds the ledger functions.
- `resolver.dfy` holds `hdl_fent`, `hdl_regi` and `hdl_nent` as functions
  over the chain.
- `devices.dfy` holds `hdl_dvad`, `hdl_fhnd` and `hdl_bdnm`.
- `opcode.dfy` holds the opcode slot mapping and the patcher. It has the
  corrected patcher and, separately, the patcher as written.
- `loader.dfy` states what `hdl_main`, `hdl_load`, `hdl_dele` and
  `hdl_ghnd` do to the state, as functions. It also proves the loader's
  invariants about them.
- `registry.dfy` holds the class `Registry`. Its fields `chain`, `ledger`
  and `tables` stand for `hdl_dll`, `hdl_depend` and the opcode tables.
  Each method performs one routine's steps in place (loops, head
  insertions, unlinking) and is proved to produce the state the functions
  in `loader.dfy` describe.

Two parts of hdl.c are modelled only in their corrected form in the
`Registry` class. Their as-written behaviour is modelled and exhibited
separately:

- the patcher, which saves one entry per architecture;
- `hdl_nent`, which stops at the end of the chain.

See "## Findings".

## Model

| member | source | states |
|---|---|---|
| Shutdown.ShutdownList.Add | hdl.c:69-79 | The new entry is at the head; the rest of the list is unchanged. |
| Shutdown.ShutdownList.Remove | hdl.c:84-101 | Returns 0 exactly when some entry has both the routine and the argument, and -1 otherwise. Only the first such entry is unlinked. |
| Shutdown.RemoveFirstRemovesOne | hdl.c:84-101 | With no match the list is unchanged. Otherwise the list is one shorter, and its multiset plus the removed entry is the old multiset. |
| Shutdown.RemoveUndoesAdd | hdl.c:69-101 | Removing a routine right after adding it gives back the old list. |
| Shutdown.ShutdownList.ShutAsWritten | hdl.c:119-142 | As written: exactly the entries on the list when shutdown starts are called, in list order. Entries a routine adds while it runs are never called. The list ends empty. |
| Shutdown.ShutdownList.Shut | hdl.c:106-142 | Corrected: the calls follow ShutOrder, which calls the head first, then whatever is at the head after it ran. The list ends empty. |
| Shutdown.ShutCallsAll | hdl.c:119-142 | Corrected shutdown calls every listed routine, and every routine one of them adds. |
| Shutdown.ShutCallsEachOnce | hdl.c:119-142 | Corrected shutdown calls each listed routine, and each routine one of them adds, exactly as often as it was registered: the calls are, as a multiset, the list plus everything its routines add. |
| Shutdown.ShutOrderNoAdds | hdl.c:119-142 | When no routine adds anything, shutdown calls the list exactly in order, head first. |
| Shutdown.ShutIsLifo | hdl.c:69-142 | When no routine adds another, routines registered in sequence are called in reverse order of registration (LIFO), each exactly once. |
| Shutdown.DroppedShutdownEntry | hdl.c:133-140 | A routine that registers a second one. As written only the first is called; corrected, both are called. |
| Dependency.Dchk | hdl.c:458-488 | For a known name: returns 0 exactly when the version and the size equal the first record, returns -1 otherwise, and leaves the ledger untouched. For an unknown name: appends exactly one record at the tail and returns 0. |
| Dependency.CheckAllExtends | hdl.c:438-488 | A dependency check only ever appends to the ledger. |
| Dependency.FirstWriterWins | hdl.c:458-488 | A name already in the ledger keeps its first record through any check. |
| Dependency.CheckAllRecords | hdl.c:479-485 | After a check, every submitted name is in the ledger. |
| Dependency.CheckAllPasses | hdl.c:915-930 | A section passes exactly when every triple it submitted agrees with the resulting ledger. |
| Dependency.CheckAllKeepsUnique | hdl.c:458-488 | A check never creates a second record for a name. |
| Resolver.Fent | hdl.c:493-538 | Cache hit: returns the first same-named entry in chain order and increments that entry's count only. Miss: the first module whose dlsym succeeds gets a new count-1 entry at the head of its list. Otherwise: NULL, and nothing changes. Only entry-point lists ever change. |
| Resolver.FentCaches | hdl.c:493-538 | Once a name is found or resolved, a second lookup hits the cache and returns the same address. |
| Resolver.NewestModuleWins | hdl.c:499-511 | An entry of the newest module hides every same-named entry of older modules. |
| Resolver.FentAllAppend | hdl.c:948-952 | Running the resolver requests of two request lists in turn is the same as running their concatenation. |
| Resolver.ZeroCounts | hdl.c:943-945 | Every count is 0 afterwards; the lists keep their length, and every other field is unchanged. |
| Resolver.Regi | hdl.c:592-605 | A count-0 entry at the head of the module's list; the rest of the descriptor is unchanged. |
| Resolver.NentIsNextInChain | hdl.c:543-587 | Corrected hdl_nent finds the first entry with the address. It returns the next same-named entry after it in chain order, across modules, or NULL. |
| Resolver.NentAsWrittenAgrees | hdl.c:543-587 | As written it agrees with the corrected scan whenever it does not crash. It dereferences NULL exactly when: the entry is found, no later same-named entry exists, and the entry is not the last entry of the last module. |
| Resolver.NentAsWrittenDereferencesNull | hdl.c:575-584 | A two-module chain on which the scan as written reads through the NULL module pointer, while the corrected scan answers NULL. |
| Resolver.OverrideChain | hdl.c:493-587 | Two modules register a name. hdl_fent returns the newer module's address. hdl_nent leads from it to the older one's address, and from there to NULL. |
| Devices.FindHandler | hdl.c:284-301 | The first handler whose name equals the device name ignoring case, scanning the newest module first. None when no module registered that name. |
| Devices.FhndFindsRegistered | hdl.c:284-301 | hdl_fhnd finds a handler exactly when some module registered the name, ignoring case. |
| Devices.Dvad | hdl.c:270-279 | The handler is at the head of the module's list; the rest of the descriptor is unchanged. |
| Devices.NewestHandlerWins | hdl.c:270-301 | Afterwards, a lookup with any case spelling of the name just registered by the newest module returns that handler. |
| Devices.BuildDeviceModuleName | hdl.c:306-320 | The in-place lowercasing loop yields the lowercase form of the prefix followed by the type. |
| Devices.DeviceModuleNameShape | hdl.c:306-320 | The name's length is the prefix's plus the type's. It starts with the prefix and holds no upper-case letter. It is the same for every case spelling of the type. |
| Opcode.Normalize | hdl.c:1236 | An opcode above 0xff is kept; a one-byte opcode moves to the high byte. |
| Opcode.SlotOf | hdl.c:1136-1221 | The table follows from the high byte. The index is the low byte in a 256-entry table, the low nibble in a 16-entry table, and the high byte in the main table. It is always inside the table. |
| Opcode.OneByteOpcodeSlot | hdl.c:1136-1236 | A one-byte opcode lands at its own index in the main table. The one exception is a byte that selects an extension table: that one lands in entry 0 of the extension table. |
| Opcode.NormalizeCollides | hdl.c:1236 | 0x01 and 0x0100 patch the same entry, and 0xB2 patches entry 0 of the B2xx table. |
| Opcode.Insert | hdl.c:1092-1117 | Corrected insertion. Each architecture that is both named and compiled in gets the routine, and its old entry is saved for that architecture alone. No other entry changes. |
| Opcode.Remove | hdl.c:1118-1132 | Corrected removal: every saved architecture gets its own saved entry back, and no other entry changes. |
| Opcode.RemoveUndoesInsert | hdl.c:1092-1133 | Removal after insertion restores the tables exactly. |
| Opcode.Define | hdl.c:1231-1245 | The binding records the normalised opcode, the architectures, the name and the routine. The selected cells of its slot hold the routine. |
| Opcode.UndefineUndoesDefine | hdl.c:1231-1245 | Unpatching a binding undoes its definition. |
| Opcode.UndefineAllUndoesDefineAll | hdl.c:1046-1056 | Unpatching a module's bindings head first, so newest first (LIFO), restores the tables, even when its definitions hit the same slot. |
| Opcode.InsertAsWritten | hdl.c:1096-1117 | As written, every named and compiled-in architecture gets the routine and no other cell changes. The single `original` holds the old entry of the last architecture patched, in the order S/370, ESA/390, z/Architecture; when none is patched it keeps its previous value. |
| Opcode.RemoveAsWrittenUndoesInsertOneArch | hdl.c:1092-1133 | As written, patching then unpatching one architecture restores the exact prior entry, provided that architecture's restore guard is compiled in. |
| Opcode.SharedOriginalLosesEntry | hdl.c:1099-1115 | As written, an S/370 + z/Architecture binding, once removed, leaves the old z/Architecture entry in the S/370 cell. |
| Opcode.Unrestored390 | hdl.c:1124-1126 | As written, in a build without z/Architecture, an ESA/390 binding stays patched in after removal. |
| Opcode.CorrectedRestoresBoth | hdl.c:1092-1133 | The corrected patcher restores the cell in both of the cases above. |
| Loader.Admit | hdl.c:843-930 | A load is admitted exactly when all of these hold: no loaded module has the base name; the library opens the binary; the binary has a dependency section; no loaded module has that section; and the check passes or force is given. A refusal before the check leaves the ledger untouched; a refusal by the check (failed, no force) keeps what the check appended. On admission the ledger is the check's. |
| Loader.NewModule | hdl.c:874-936 | The descriptor has the caller's flags less WAS_FORCED. WAS_FORCED is set exactly when the check failed. It has the initialiser's entries and no handlers or bindings. |
| Loader.Install | hdl.c:932-962 | The new module is at the head and the modules below keep their shape. Its handlers and bindings are those of its device and instruction sections. The tables are patched accordingly. |
| Loader.LoadSpec | hdl.c:839-967 | Returns 0 exactly when admitted, otherwise -1. A refused load changes neither the chain nor the tables. A successful load adds exactly one module, at the head. |
| Loader.LoadSucceeds | hdl.c:839-967 | After a successful load, the head module has the path's base name, the opened binary and the caller's flags apart from WAS_FORCED. It is forced exactly when the check failed, and only with force. It has its handlers and the tables its instruction section produces. |
| Loader.LoadRefusesLoadedName | hdl.c:845-854 | A load whose base name is already loaded returns -1 and changes nothing. |
| Loader.InstallKeepsChainInv | hdl.c:939-940 | Putting a module with a new name and a new dependency section at the head keeps the chain invariant. |
| Loader.LoadPreservesInv | hdl.c:839-967 | hdl_load keeps the loader invariant. The invariant: the resident module is last and marked main and no-unload; names and dependency sections are distinct; every table cell exists. |
| Loader.DeleCheck | hdl.c:989-1017 | An unload is accepted exactly when the module is neither main nor no-unload, no valid device uses its handlers, and its final section is absent or returns 0. The first two refusals give -1; a final section's non-zero code is returned as is. |
| Loader.DeleSpec | hdl.c:972-1088 | No module with the base name: -1. Otherwise the return code is DeleCheck of that module (-1 for main or no-unload, -1 for a bound handler, the final section's non-zero code, else 0). On any failure nothing changes; on 0 the module is unloaded as Unload describes. |
| Loader.Unload | hdl.c:1019-1075 | Exactly that module leaves the chain, and the others keep their order and shape. The ledger is untouched. The tables are its bindings undone newest first. |
| Loader.DeleKeepsMain | hdl.c:989-995 | After hdl_dele the resident module is still on the chain, as its last element. |
| Loader.DeleAcceptsHead | hdl.c:972-1081 | An unloadable head module is accepted; the result is the rest of the chain, re-resolved, with the module's instructions unpatched. |
| Loader.DeleUndoesLoad | hdl.c:839-1088 | Loading a module and then unloading it returns 0, restores the opcode tables exactly, and restores the chain's shape. This holds when the module is neither main nor no-unload, has no active handler and has no refusing final section. |
| Loader.DelePreservesInv | hdl.c:972-1088 | hdl_dele keeps the loader invariant. |
| Loader.UnloadKeepsInv | hdl.c:1035 | Unlinking any module but the resident one keeps the invariant. |
| Loader.UndefineAllComplete | hdl.c:1046-1056 | Unpatching never removes a table cell. |
| Loader.MainSpec | hdl.c:741-826 | After set-up, the chain holds only the resident module and the ledger holds exactly its declared triples. |
| Loader.MainSpecInv | hdl.c:741-804 | The state after set-up satisfies the loader invariant. |
| Loader.LoadEach | hdl.c:828-829 | The preloads run in table order, each with NOMSG. |
| Loader.LoadEachInv | hdl.c:828-829 | Any sequence of loads keeps the invariant. |
| Loader.HdlMainInv | hdl.c:730-834 | After hdl_main, including its preloads, the invariant holds. |
| Loader.GhndSpec | hdl.c:325-354 | The answer is always hdl_fhnd of the original type afterwards. When a handler already matches, nothing is loaded. On a miss, the module named after the type is loaded; when that load succeeds and the type is then found, or no alias is defined, that load's state is the result. The alias module is loaded after it exactly when the load failed or still found no handler and an alias is defined. |
| Loader.GhndPreservesInv | hdl.c:325-354 | hdl_ghnd keeps the loader invariant. |
| Hdl.FiniOrderNewestFirst | hdl.c:610-630 | A newer module's final section is called before those of every older module. |
| Hdl.FiniOrderDistinct | hdl.c:616-627 | When module names are distinct, no name appears twice among the calls. |
| Hdl.FiniOrderCallsEach | hdl.c:610-630 | Exactly the modules that have a final section are called, each once: no name appears twice and the list is no longer than the chain. The resident module's, when present, is last. |
| Hdl.RunInitialiser | hdl.c:932-936 | The loop of hdl_regi calls leaves the module's list as the registrations, last one first, ahead of the old entries. |
| Hdl.Registry.constructor | hdl.c:730-826 | hdl_main's set-up produces Loader.MainSpec and the invariant, and puts hdl_term at the head of the shutdown list. |
| Hdl.Registry.DeclareDependencies | hdl.c:808-809 | The resident module's triples are appended to the ledger in order, without a check. |
| Hdl.Registry.RunResolver | hdl.c:814-815 | A resolver section is hdl_fent on each name, in order. |
| Hdl.Registry.RegisterDevices | hdl.c:954-956 | A device section pushes each handler at the head of the current module's list. |
| Hdl.Registry.DefineInstructions | hdl.c:958-960 | An instruction section's tables and bindings follow Opcode.DefineAll. |
| Hdl.Registry.Dadd | hdl.c:438-453 | A record is appended at the tail of the ledger. |
| Hdl.Registry.Dchk | hdl.c:458-488 | The scan loop returns the code, and leaves the ledger, that Dependency.Dchk describes. |
| Hdl.Registry.CheckDependencies | hdl.c:915-930 | A check-mode section passes and leaves the ledger exactly as Dependency.CheckAll says. |
| Hdl.Registry.FindLoaded | hdl.c:845-854 | The scan finds the first loaded module with the name. |
| Hdl.Registry.FindDuplicate | hdl.c:885-895 | The scan reports a loaded module with the same dependency section exactly when one exists. |
| Hdl.Registry.Fhnd | hdl.c:284-301 | The nested scan returns the handler Devices.FindHandler locates, or NULL. |
| Loader.FentKeepsInv | hdl.c:493-538 | A lookup by hdl_fent, which any module may make at any time, changes entry-point lists only and keeps the loader invariant. |
| Hdl.Registry.Fent | hdl.c:493-538 | hdl_fent gives the address and chain of Resolver.Fent and keeps the loader invariant. |
| Hdl.Registry.FentScan | hdl.c:500-537 | The two scans and the in-place updates give the address and chain of Resolver.Fent; the ledger and tables are untouched. |
| Hdl.Registry.Dvad | hdl.c:270-279 | The chain head gets the handler, as Devices.Dvad describes. |
| Hdl.Registry.PatchIn | hdl.c:1094-1117 | The tables and the saved entries are those of the corrected Opcode.Insert. |
| Hdl.Registry.PatchOut | hdl.c:1118-1132 | The tables are those of the corrected Opcode.Remove. |
| Hdl.Registry.Didf | hdl.c:1231-1245 | The tables are patched, and the binding is prepended to the head module, as Opcode.Define says. |
| Hdl.Registry.ResetCounts | hdl.c:943-945 | The nested loop sets the chain to Resolver.ZeroCounts of the old chain. |
| Hdl.Registry.CallResolvers | hdl.c:948-952 | Every module's resolver section runs in chain order; the result is Resolver.ResolveAll. |
| Hdl.Registry.Check | hdl.c:843-936 | hdl_load's checks, in the source's order, give the admission Loader.Admit describes. Only the ledger changes. |
| Hdl.Registry.InstallModule | hdl.c:932-962 | The commit leaves the state Loader.Install describes. |
| Hdl.Registry.Load | hdl.c:839-967 | The return code and the new state are those of Loader.LoadSpec, and the invariant is kept. |
| Hdl.Registry.UndoInstructions | hdl.c:1046-1056 | The module's bindings are unpatched head first, as Opcode.UndefineAll describes. |
| Hdl.Registry.DeleChecks | hdl.c:989-1017 | The refusals run in the source's order and return exactly Loader.DeleCheck's code: -1 for main or no-unload, -1 for a bound handler, the final section's non-zero code, else 0. |
| Hdl.Registry.UnloadAt | hdl.c:1019-1075 | Unlinking, unpatching, resetting counts and re-resolving leave exactly the state Loader.Unload describes. |
| Hdl.Registry.Dele | hdl.c:972-1088 | The return code and the new state are those of Loader.DeleSpec, and the invariant is kept. |
| Hdl.Registry.Ghnd | hdl.c:325-354 | The handler and the new state are those of Loader.GhndSpec, and the invariant is kept. |
| Hdl.Registry.LoadNames | hdl.c:828-829 | Each name is loaded with NOMSG in turn, ignoring the return codes; the result is Loader.LoadEach. |
| Hdl.Registry.LoadNext | hdl.c:828-829 | One more name loaded extends the Loader.LoadEach state by that load. |
| Hdl.Registry.Preload | hdl.c:828-829 | The preload table is loaded as Loader.LoadEach describes, and the invariant is kept. |
| Hdl.Registry.Term | hdl.c:610-630 | The names of the modules whose final section is called, in call order, are Hdl.FiniOrder of the chain. |

## Left out

- `hdl_dlopen`'s path and suffix fallback: opening a module is a lookup
  in `Library` by the name as given.
- dlopen, dlsym and dlclose are foreign calls. dlsym of the named
  sections is part of `Binary`.
- `strfilenamecmp` is taken as exact equality. Case-insensitive file
  systems are not modelled.
- `hdl_lock` and `hdl_sdlock`: each operation is atomic.
- A callback that calls back into the loader beyond the registrations
  modelled here is not modelled.
- Logging and display: `hdl_list`, `hdl_dlst`, `hdl_setpath` and every
  message.
- MSVC-only code: `hdl_lexe`, and the `logger_term` deferral in
  `hdl_shut`.
- The `FEATURE_VECTOR_FACILITY` case of `hdl_modify_opcode`: it does not
  compile.
- `copy_opcode_tables` copies the tables into shadow tables that are not
  part of this model.
- The whole opcode patcher is modelled as built with `ZZ_NO_BACKLINK`.
  Without it, hdl_didf records the binding but patches nothing, and
  hdl_dele unpatches nothing.
- Opcodes are limited to 0..0xFFFF. hdl_didf accepts any `int`; a
  larger value would index past the end of the main table.
- Load counts are unbounded `nat`s. The C `int` counter's wrap-around on
  `count++` is not modelled.
- Allocation failures are not modelled:
  - hdl_fent's failed entry allocation returns NULL;
  - hdl_load's failed descriptor allocation returns -1;
  - hdl_main exits on a failed allocation, a failed self-open or a
    missing dependency section. For hdl_main, the last of these becomes
    the precondition of `Hdl.Registry.constructor`.
- The numeric flag and architecture bits and the values of `HDL_HDTP_Q`
  and the `HDL_DEPENDENCY` macros come from `hdl.h`, which is not part of
  this model. Flags and architectures are modelled as sets. The device
  module prefix is taken as `"hdt"`.
- A module's dependency section is assumed to check every triple and
  fail when any check failed. The macros that do this live in `hdl.h`.
- The resident module's symbols are resolved through the same `Binary`
  as every other module; `dlopen(NULL)` is not singled out.
- The live device list (`sysblk`) is reduced to the set `active` of
  handler addresses of devices whose valid bit is set.
- The equate hook `hdl_device_type_equates` is an optional map from
  device types to the type to try next.
- Shutdown.ShutdownList.Shut: the corrected shutdown is stated only for
  routines whose added routines add nothing themselves (`AddsAreLeaves`).
  This bounds the sequence; a routine that re-registers itself for ever
  would make the source loop for ever.
- Shutdown.ShutdownList.ShutAsWritten: `hdl_rmsc` called from inside a
  shutdown routine is not modelled.
- Hdl.Registry.Dele: the final section is a value fixed by the binary,
  not a call with effects.
- Hdl.Registry.Term: returns the names of the modules called; what the
  final sections do is not modelled.
- Resolver.Nent: the corrected `hdl_nent` is a function over the chain.
  It is a read-only scan, so it is not also a method of `Registry`.

## Findings

| source | as written | input that shows it | evidently intended | confidence | as-written member | corrected member |
|---|---|---|---|---|---|---|
| hdl.c:575 | The step `dllent = dllent->dllnext, modent = dllent->modent` reads `modent` through `dllent` after `dllent` has become NULL. This happens when the scan for a same-named entry runs off the end of the chain. | The chain is [`mod` with entry `x`@1, `*Hercules` with entry `y`@2], and the call is `hdl_nent(1)`. | Return NULL when no later entry has the name. | not executed | Resolver.NentAsWrittenDereferencesNull | Resolver.NentIsNextInChain |
| hdl.c:1124 | The ESA/390 restore is guarded by `#if defined(_900)` instead of `_390`. | A build with `_370` and `_390` but without `_900`. An instruction is defined for ESA/390 and then its module is unloaded. The routine stays in the table. | Restore the ESA/390 entry whenever ESA/390 is compiled in. | not executed | Opcode.Unrestored390 | Opcode.CorrectedRestoresBoth |
| hdl.c:1099-1115 | Every architecture's insertion writes the one `original` field, so only the last architecture's old entry is kept. | An instruction for S/370 and z/Architecture whose old entries are 1 and 2. After removal the S/370 cell holds 2. | Save the old entry of each architecture separately. | not executed | Opcode.SharedOriginalLosesEntry | Opcode.RemoveUndoesInsert |
| hdl.c:133-140 | The head routine is called before it is unlinked, and the head is then set to `shdent->next`. Any entry the routine added meanwhile is dropped and never called. | A shutdown routine `first` that calls `hdl_adsc` for `second`: `second` is never called. | Call every registered routine exactly once. | not executed | Shutdown.ShutdownList.ShutAsWritten | Shutdown.ShutCallsEachOnce |
