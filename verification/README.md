# A verified model of the linker

This project models the dynamic linker under `emulator/`, a port of Android's bionic linker that
loads 32-bit ARM shared objects, and proves what callers of `dlopen`, `dlsym`, `dladdr` and
`dlclose` rely on. `dafny verify dfyconfig.toml` checks all of it.

It has three layers.

* **The life cycle as a state machine over values** (`Lifecycle.dfy`): the list of loaded
  libraries, reference counts, reservations, the soinfo pool, the trace of constructor and
  destructor runs, and the bytes of the loaded images. Three things are recorded that the program
  does not store: which handles are outstanding, which counts failed links have leaked, and which
  ranges loads that were refused half-way have left mapped. The operating system is an oracle that
  answers each request in turn; every theorem is for all oracles and all sets of files. `None`
  stands for a null dereference or a recursion without end, and `Runs.RunsAreSafe` shows that no
  run reaches it. The invariant and what each step does to it are in `LifecycleInvariant.dfy`,
  `LoadingInvariant.dfy`, `Traces.dfy`, `ConstructorInvariant.dfy`, `UnloadInvariant.dfy` and
  `MemoryInvariant.dfy`; what it means for a caller is in `LifecycleTheorems.dfy`, `Leaks.dfy`,
  `LiveSlots.dfy`, `Overwrites.dfy`, `Unmapping.dfy`, `Success.dfy` and `Opening.dfy`: counts and
  the address space are conserved, memory holds what was linked, exactly which opens succeed, and
  exactly which runs restore the initial list. `ConstructorOrder.dfy` gives the order of
  constructors, and `Closure.dfy` which names can be opened in terms of files and names alone.
  `Composition.dfy` ties the memory of the life cycle to the loops below.
* **The linker in memory** (`SoinfoList.dfy`, `LinkerSteps.dfy`, `Linker.dfy`, `Callbacks.dfy`,
  `Dlfcn.dfy`): soinfo records with next pointers, solist and the free list, updated in place by
  methods that follow the functions of `linker.cpp` and `dlfcn.cpp`, recursion included. Each is
  proved to take exactly the step that the state machine specifies, so the theorems over runs hold
  of the records.
* **Memory** (`Symbols.dfy`, `Relocation.dfy`, `Verdict.dfy`, `Segments.dfy`, `Extent.dfy`,
  `ElfReader.dfy`, `HeaderTable.dfy`, `Protection.dfy`, `RebasedImage.dfy` and the theorem files
  beside them): the hash index, the relocation loop over bytes, and `ElfReader`, whose page
  arithmetic is unsigned 32-bit arithmetic that may wrap, over a byte memory with page protections
  and both `s_mmap` back ends.

Where the code and the documents it quotes disagree, the model follows the code: R_ARM_REL32
subtracts `r_offset`, R_ARM_RELATIVE and `dladdr_find_symbol` use `base` and not `load_bias`,
`nchain` of libdl is one more than it has symbols, and `open_library_on_path` opens the plain name
instead of the path that it built. Where a property fails the model gives an input, and the exact
condition under which the code does meet it: for REL32 and RELATIVE, for dladdr after dlsym, for
the page hull of the segments, for the header table that runs past 2^32, for the two `s_mmap` back
ends, for the counts that a failed open leaks, and, link by link, for the slots that an entry of
another library may overwrite. Over whole runs the last one is given one way only: memory holds
what was linked when every entry of every file patches its own library, a condition on the files
that a stray entry may break without doing harm.

## Model

| member | source | states |
|---|---|---|
| `ElfHash.Compute` | emulator/linker.cpp:309-320 | `elfhash`: the loop over the bytes returns, as a number, the value of the gABI's reference function for the string |
| `ElfHash.HashIsReference` | emulator/linker.cpp:309-320 | for every string the unconditional folding equals the gABI's reference function, in 32-bit wrapping arithmetic |
| `ElfHash.HashFits` | emulator/linker.cpp:309-320 | the hash stays below 2^28 |
| `ElfHash.KnownHashes` | emulator/linker.cpp:309-320 | values of that reference function: 0x61 for `a`, 0xb2a36f5 for `dlclose`, at whose end the nibble is folded |
| `Symbols.ElfLookup` | emulator/linker.cpp:281-307 | `soinfo_elf_lookup`: the chain walk terminates and returns the first global or weak definition of the name on the bucket's chain |
| `Symbols.SearchFindsChain` | emulator/linker.cpp:286-304 | a definition anywhere on a chain that ends makes the walk of that chain succeed |
| `Symbols.SearchIsSound` | emulator/linker.cpp:286-304 | whatever the walk returns is an entry of the table, not entry 0, that defines the name |
| `Symbols.LookupRefinesScan` | emulator/linker.cpp:281-307 | with a DT_HASH of any number of buckets, in which every definition hangs on the bucket of its reference hash, the indexed lookup finds a definition iff a scan of the symbol table finds one, and the same one when names are unique |
| `Symbols.HandleLookup` | emulator/linker.cpp:433-435 | `dlsym_handle_lookup`: nothing is found iff no entry of that one table defines the name |
| `Symbols.DoLookup` | emulator/linker.cpp:322-422 | `soinfo_do_lookup`: the first hit, main before self or with DT_SYMBOLIC self before main, once when they are the same and neither when one is null, then preloads, then the needed array |
| `Symbols.SearchLocal` | emulator/linker.cpp:327-391 | the four orders of the local scope; a null main executable leaves it empty |
| `Symbols.SearchGlobal` | emulator/linker.cpp:393-412 | preloads before the needed array |
| `Symbols.FirstHit` | emulator/linker.cpp:393-412 | a hit with no hit before it is the scope's answer |
| `Relocation.RelocateTable` | emulator/linker.cpp:715-957 | `soinfo_relocate`: the loop is the specified pass, whose verdict is `Verdict.RelocatesIff` and whose words are `Verdict.PatchedWord`, a pass that fails half-way included; protections untouched |
| `Relocation.RelocateEntry` | emulator/linker.cpp:724-954 | one entry: weak, undefined, REL32 and RELATIVE branches; a rejected entry writes nothing; what is accepted is `Verdict.AcceptableIff` |
| `Verdict.AcceptableIff` | emulator/linker.cpp:735-950 | an entry is accepted iff it is R_ARM_NONE, or has no symbol and kind 22, 21, 2, 3 or 23, or its name is defined, global or weak, in some table of the scope and its kind is 22, 21, 2 or 3, or it is not and the reference is weak and the kind 22, 21 or 2 |
| `Verdict.RelocatesIff` | emulator/linker.cpp:715-957 | for well-formed scope tables the pass returns 0 iff every entry is of one of those forms |
| `Verdict.StrongReferencesDecide` | emulator/linker.cpp:764-783 | so a table of JUMP_SLOT, GLOB_DAT and ABS32 entries relocates iff every reference that is not weak is defined in some needed library |
| `Verdict.DefinitionIsFirst` | emulator/linker.cpp:404-412 | the definition that a lookup returns is in the first library of the scope that has one, and there is one iff some table has an entry of that name, global or weak, with a section |
| `Verdict.PatchedWord` | emulator/linker.cpp:738-885 | after a successful pass over disjoint places, the word at r_offset + bias is S, B + S, B + S - r_offset or B + base mod 2^32, by the entry's number, with S the value plus bias of a definition in the first library that has one, or 0 |
| `RelocationTheorems.SucceedsIffAcceptable` | emulator/linker.cpp:715-957 | the verdict is that of the entries one by one, whatever the memory |
| `RelocationTheorems.RejectedPass` | emulator/linker.cpp:764-783 | a pass that comes to an entry it rejects fails and leaves what the entries before it have made |
| `RelocationTheorems.RelocationResult` | emulator/linker.cpp:817-954 | with disjoint places every word ends as its new value computed from the original word, though later entries run after it |
| `RelocationTheorems.UncoveredByte` | emulator/linker.cpp:817-954 | no byte outside the places changes, whether the pass succeeds or fails |
| `RelocationTheorems.FirstDefinition` | emulator/linker.cpp:404-412 | with well-formed indices the definition used is in the first library of the scope that has one at all, and an undefined symbol is in none |
| `RelocationTheorems.BoundWord` | emulator/linker.cpp:738-830 | a JUMP_SLOT or GLOB_DAT word ends as bias plus st_value of the first definition, or 0 for an unresolved weak reference |
| `RelocationTheorems.TwoPasses` | emulator/linker.cpp:1289-1300 | the plt_rel pass followed by the rel pass is one pass over the concatenated tables, failure included |
| `Composition.RelocateBoth` | emulator/linker.cpp:1289-1300 | running the loop over plt_rel and then over rel gives the verdict and the memory that the life cycle specifies for a link |
| `RelocationTheorems.PermutationDisjoint` | emulator/linker.cpp:723-955 | disjointness of the places does not depend on the order of the entries |
| `RelocationTheorems.OrderIndependence` | emulator/linker.cpp:1289-1300 | rearranging the entries within and across the two tables changes neither the verdict nor, on success, the memory |
| `RelocationTheorems.PassMoves` | emulator/linker.cpp:726-727 | moving image and bias by the same distance keeps the pass possible, the places disjoint and the verdict |
| `RelocationTheorems.RebasedWord` | emulator/linker.cpp:817-885 | for two memories that are the same image some distance apart: RELATIVE words end exactly that distance apart mod 2^32, all other patched words equal, REL32 included since it subtracts an offset and not an address |
| `RelocationTheorems.RebasedByte` | emulator/linker.cpp:817-885 | outside the places those two memories still agree byte for byte |
| `RebasedImage.ImageMoves` | emulator/linker_phdr.cpp:279-369 | loading one file into zero-filled reservations at two page-aligned addresses gives the same image, byte for byte, moved by the distance |
| `RebasedImage.LinkedTwice` | emulator/linker.cpp:817-885 | loading and then relocating one file at two addresses, its providers staying where they are: both relocations succeed or neither, and the two images differ by exactly the distance in the RELATIVE words and agree in every other byte |
| `RelocationTheorems.Rel32IsPlaceRelativeIffUnbiased` | emulator/linker.cpp:837-843 | the code subtracts r_offset, not the relocated place: it computes S + A - P exactly when the load bias is 0 |
| `RelocationTheorems.RelativeFollowsBiasIffBaseIsBias` | emulator/linker.cpp:872-885 | the code adds base, not the bias: it moves an address by the bias exactly when the two are equal |
| `Memory.WriteThenRead` | emulator/linker.cpp:823 | a word written, least significant byte first, is read back, and its neighbours keep their bytes |
| `Segments.GetLoadSize` | emulator/linker_phdr.cpp:238-274 | `phdr_table_get_load_size`: the two running extremes, the empty table and the page rounding, in wrapping 32-bit sums |
| `Extent.HullIff` | emulator/linker_phdr.cpp:238-274 | for every table with a PT_LOAD entry: min_vaddr and the size are the page hull of the PT_LOAD ranges iff the hull is smaller than 2^32 and the ends wrap together, that is, no end lies in the last page or beyond, or every end wraps, or none goes past 2^32 and one lies in the last page short of it |
| `Extent.HullUnlessAllMemory` | emulator/linker_phdr.cpp:238-274 | in particular, when no end wraps, unless the table spans the first and the last page, and then the size is 0 |
| `Extent.ExtentIsHull` | emulator/linker_phdr.cpp:238-274 | a table that has something to load and no wrapping end: the extent covers every PT_LOAD range and both its ends are attained |
| `Extent.WrappedEndIsLost` | emulator/linker_phdr.cpp:256-258 | an input whose end wraps and for which the size is 0 |
| `Extent.WrappedEndIsKept` | emulator/linker_phdr.cpp:256-273 | inputs whose end lies in the last page, or wraps, and which get their hull all the same |
| `SegmentTheorems.LayoutInReservation` | emulator/linker_phdr.cpp:279-365 | with bias = start - min_vaddr mod 2^32, wrapped or not, every map, memset and zero-map range lies inside the reservation, and the wrapping sums are the exact addresses |
| `SegmentTheorems.SegmentTouchesItsPages` | emulator/linker_phdr.cpp:309-367 | one pass changes no byte outside the pages of its own segment |
| `SegmentTheorems.OwnSegment` | emulator/linker_phdr.cpp:309-369 | with page-disjoint segments a byte is decided by its own segment's pass alone, earlier and later passes notwithstanding |
| `SegmentTheorems.LoadedImage` | emulator/linker_phdr.cpp:309-369 | every segment byte below p_filesz is the file's, every byte up to p_memsz zero, except that POSIX leaves the file's bytes on the last file page of a segment that is not writable |
| `SegmentTheorems.LoadedElsewhere` | emulator/linker_phdr.cpp:309-369 | nothing outside the reservation changes |
| `SegmentTheorems.BackendsAgreeIff` | emulator/memory.cpp:71-164 | the bytes that loading under POSIX and under the Win32 emulation leaves in a segment are the same iff the segment is writable or the file is zero where the segment should be, past p_filesz on the last file page |
| `SegmentTheorems.BackendsEquivalent` | emulator/memory.cpp:101-132 | so they agree on every segment that is writable, has filesz = memsz, or ends its file part on a page |
| `HeaderTable.BackendsDiffer` | emulator/memory.cpp:101-132 | a file, header and table included, for whose segment they do not: a byte after the file part of a segment that is not writable |
| `HeaderTable.NothingReadAtZero` | emulator/memory.cpp:101-132 | after a reservation that was refused but taken for granted, the Win32 loader leaves the segment at place 0 as memory was, but for the bytes that it clears |
| `Protection.SetLoadProt` | emulator/linker_phdr.cpp:375-396 | `_phdr_table_set_load_prot` over the page protections; a refused mprotect leaves the entries before it in force |
| `Protection.SetRelroProt` | emulator/linker_phdr.cpp:439-476 | `_phdr_table_set_gnu_relro_prot` with PROT_READ, likewise |
| `Protection.LoadedPage` | emulator/linker_phdr.cpp:334-361 | after loading, each page has the flags of the one segment it belongs to |
| `Protection.ReprotectedPage` | emulator/linker_phdr.cpp:380-394 | a pass changes the pages of the segments that are not writable, and no page of a writable one |
| `Protection.UnprotectedIsWritable` | emulator/linker_phdr.cpp:430-434 | while text relocations are applied every page of every segment is writable, its read and execute bits kept |
| `Protection.ProtectRestores` | emulator/linker_phdr.cpp:409-434 | protecting after unprotecting gives back, on every page, what loading had given |
| `Protection.WritableUntouched` | emulator/linker_phdr.cpp:381-382 | neither call touches a page of a writable segment, whatever its protection |
| `Protection.RelroPage` | emulator/linker_phdr.cpp:444-474 | RELRO makes read-only exactly the pages that its entries touch |
| `Protection.LinkedProtections` | emulator/linker.cpp:1271-1327 | the final protections of a linked library: read-only where RELRO touches, else as loaded, with or without text relocations in between |
| `Permissions.WritableIff` | emulator/linker.cpp:1271-1277 | while relocations are applied a byte of a segment can be written iff the segment is writable or the library has text relocations |
| `Permissions.PassIsPermitted` | emulator/linker.cpp:1271-1300 | so every write of a pass is permitted when its places are on segment pages, of writable segments unless the library has text relocations |
| `ElfReader.Reader.ReserveAddressSpace` | emulator/linker_phdr.cpp:279-303 | under POSIX fails iff there is nothing to load or the reservation is refused; the Win32 emulation returns null for a refusal, which passes for success at address 0; else the bias is start - min_vaddr and the range is zero-filled, without access under POSIX and readable and writable under Win32 |
| `ElfReader.Reader.MapFixed` | emulator/memory.cpp:71-164 | `s_mmap` at a fixed address under both back ends: bytes, protections, the PROT_EXEC-only mapping that the Win32 emulation rejects, and address 0, which it takes for no address |
| `ElfReader.Reader.LoadSegment` | emulator/linker_phdr.cpp:317-365 | one pass of the loop, including where a refused mapping stops it |
| `ElfReader.Reader.LoadSegments` | emulator/linker_phdr.cpp:309-369 | the whole loop: specified bytes and protections on success; on an obliging system it succeeds iff every segment is mappable; a failure leaves the passes before it complete |
| `ElfReader.Reader.CheckPhdr` | emulator/linker_phdr.cpp:623-640 | true iff some PT_LOAD file part holds the table, as the wrapping comparison sees it; only then is the pointer set |
| `ElfReader.Reader.FindPhdr` | emulator/linker_phdr.cpp:591-618 | PT_PHDR first, else e_phoff read from the loaded header of the first PT_LOAD if that maps file offset 0; it faults iff that read is of memory that is not there |
| `HeaderTable.CandidateIff` | emulator/linker_phdr.cpp:591-618 | the address that is checked is that of the first entry of type 6; or there is none, the first of type 1 has offset 0, and it is that entry's address plus the word 28 bytes in; and there is no other case |
| `ElfReader.Reader.Load` | emulator/linker_phdr.cpp:120-123 | reserve, load and find together: after a granted reservation success leaves every byte and every page of every segment as the headers ask, and a pointer to memory that holds, entry for entry, the table that was read, when the table is where PT_PHDR or the first segment says; nothing outside the reservation changes even on failure; the exact condition of success on an obliging system; the read of e_phoff faults only after a refused reservation or in a first segment of no bytes |
| `Composition.MapImage` | emulator/linker_phdr.cpp:279-369 | reserving and loading with the loops above turns memory into what the life cycle calls the memory with the image |
| `HeaderTable.TableSurvives` | emulator/linker_phdr.cpp:588-640 | a header table inside a segment's file part is in memory entry for entry |
| `HeaderTable.HeadersFromFirstSegment` | emulator/linker_phdr.cpp:601-613 | if the first PT_LOAD has file offset 0 and holds header and table, the address found is accepted and memory there holds the table that was read from the file at e_phoff, entry for entry |
| `HeaderTable.HeadersFromPtPhdr` | emulator/linker_phdr.cpp:594-599 | the same by way of a PT_PHDR that names e_phoff |
| `HeaderTable.AcceptedTableIsInsideIffNoWrap` | emulator/linker_phdr.cpp:623-635 | an accepted table lies wholly in one PT_LOAD's file part iff its end, a 32-bit sum, does not wrap |
| `HeaderTable.VerifiedIff` | emulator/linker_phdr.cpp:143-184 | `VerifyElfHeader` byte by byte: 7f 45 4c 46, 32-bit, little-endian, machine 40, version 1, and nothing else |
| `HeaderTable.EveryTableHasAFile` | emulator/linker_phdr.cpp:120-207 | every table of 1 to 2048 entries is what the loader reads from some file whose header it accepts: magic number, class, byte order, version and machine, e_phoff and e_phnum |
| `HeaderTable.WrappedTableIsAccepted` | emulator/linker_phdr.cpp:625-632 | a file that is read and whose loaded table would run past 2^32: FindPhdr accepts it although it lies in no segment |
| `Base.BasenameIsLastComponent` | emulator/linker.cpp:596-597 | what follows the last slash holds no slash, and nothing of the name is lost |
| `LifecycleSteps.FindLoadedIsFirst` | emulator/linker.cpp:589-605 | `find_loaded_library` returns the first entry of solist with the basename of the name, and null only if no entry has it |
| `LoadingInvariant.LoadLibraryEnters` | emulator/linker.cpp:557-587 | `load_library` either enters one new library at the end of solist, unlinked and uncounted, under a name that was not listed and in a range that was free, or changes nothing but the address space and the pool |
| `Lifecycle.Bindings` | emulator/linker.cpp:736-807 | every recorded slot is bound to a symbol of a library of the needed array |
| `LifecycleTheorems.SearchOutcome` | emulator/linker.cpp:607-640 | `find_library_internal` returns a library iff afterwards the name is listed and linked, and then that one; when it fails the name is listed or not as before |
| `LoadingInvariant.FinishLinkMarks` | emulator/linker.cpp:1271-1329 | the end of `soinfo_link_image` either sets FLAG_LINKED with every symbol found in the needed array, or changes nothing but memory; success implies the flag, not the converse |
| `Lifecycle.RoomShrinks` | emulator/linker.cpp:607-640 | loading a library leaves one openable basename fewer: the measure of the recursion |
| `Lifecycle.CallConstructors` | emulator/linker.cpp:1008-1047 | changes flags and trace only; terminates by the number of unset flags |
| `Lifecycle.Reversed` | emulator/linker.cpp:968-976 | the backward walk visits position n - 1 - i at step i |
| `LifecycleTheorems.UnloadRemovesIffLast` | emulator/linker.cpp:650-681 | giving back a count takes the library off solist iff it was the last count |
| `LifecycleInvariant.InitIsInvariant` | emulator/dlfcn.cpp:212-272 | the root state satisfies the whole invariant |
| `LifecycleInvariant.EnteredKeeps` | emulator/linker.cpp:573-586 | entering a loaded library keeps counts conserved, reservations disjoint, names unique |
| `LifecycleInvariant.ReferencedKeeps` | emulator/linker.cpp:642-648 | taking a count keeps the invariant, the count being owed to the caller |
| `LifecycleInvariant.ExtendedKeeps` | emulator/linker.cpp:1257-1266 | an owed count becomes an entry of the needed array |
| `LifecycleInvariant.LinkedKeeps` | emulator/linker.cpp:1289-1308 | linking gives the library a rank above its dependencies and slots that are live |
| `LifecycleInvariant.DiscardedKeeps` | emulator/linker.cpp:633-637 | discarding a library nobody counts keeps every other binding live; the counts it had taken are recorded as leaked |
| `LoadingInvariant.LoadLibraryKeeps` | emulator/linker.cpp:557-587 | `load_library` keeps the invariant on each exit |
| `LoadingInvariant.FindLibraryKeeps` | emulator/linker.cpp:642-648 | from any state satisfying the invariant, `find_library` ends in one, with the count owed on success, no handle touched and nothing leaked on success |
| `LoadingInvariant.FindInternalKeeps` | emulator/linker.cpp:607-640 | the same for `find_library_internal`, in the middle of any nesting of links |
| `LoadingInvariant.LinkImageKeeps` | emulator/linker.cpp:1059-1330 | the same for `soinfo_link_image`, by mutual induction |
| `LoadingInvariant.LoadNeededKeeps` | emulator/linker.cpp:1253-1268 | the DT_NEEDED loop keeps it entry by entry |
| `ConstructorInvariant.NeededIsLoaded` | emulator/linker.cpp:1035-1037 | at rest each DT_NEEDED name is found on solist, and is the library in the needed array: the call through the result is never through null |
| `ConstructorInvariant.ConstructorsRun` | emulator/linker.cpp:1008-1047 | from an ordered trace `CallConstructors` meets no null pointer, sets the flag, and leaves the trace ordered |
| `UnloadInvariant.UnloadKeeps` | emulator/linker.cpp:650-681 | with a count owed `soinfo_unload` terminates, meets no null pointer, returns the count, leaks nothing, and spares every library of higher rank |
| `UnloadInvariant.UnloadNeededKeeps` | emulator/linker.cpp:661-668 | the same for the loop over the dependencies of a library that is going away |
| `UnloadInvariant.DiscardKeeps` | emulator/linker.cpp:670-673 | unmapping and freeing the library last keeps every binding left alive |
| `Runs.OpenRest` | emulator/linker.cpp:683-702 | `do_dlopen` from rest ends at rest: success adds one handle and leaks nothing, failure leaves the handles as they were |
| `Runs.CloseRest` | emulator/linker.cpp:704-709 | `do_dlclose` of a held handle ends at rest with that handle given back and nothing leaked |
| `Runs.RunsAreSafe` | emulator/linker.cpp:683-709 | no sequence of opens, failing or not, and closes of held handles meets a null pointer or endless recursion; every state in between satisfies the invariant |
| `LifecycleTheorems.CountsAreConserved` | emulator/linker.cpp:607-681 | after any run each ref_count is 0xffffff for libdl or 0, plus handles, plus DT_NEEDED entries of listed libraries naming it with multiplicity, plus leaked counts |
| `LifecycleTheorems.NoDanglingBindings` | emulator/linker.cpp:806-807 | after any run every address that a listed library was given at link time is still that of a symbol of a library that is on solist, linked, counted and not unmapped |
| `MemoryInvariant.LoadLibraryIntact` | emulator/linker.cpp:557-587 | reading a self-contained file into a reservation that was free leaves the image of every listed library as it was, byte for byte |
| `MemoryInvariant.FinishLinkIntact` | emulator/linker.cpp:1271-1329 | both passes of a library, failing or not, leave the images of the others as they were; if it gets FLAG_LINKED its own is the loaded one with all its entries applied |
| `MemoryInvariant.DiscardPreserves` | emulator/linker.cpp:633-637 | unmapping a library takes no byte of another |
| `LiveSlots.FindLibraryIntact` | emulator/linker.cpp:607-648 | so does a whole `find_library`, nested loads, links and discards included |
| `LiveSlots.UnloadPreserves` | emulator/linker.cpp:650-681 | and a whole `soinfo_unload` |
| `LiveSlots.ImagesHold` | emulator/linker.cpp:607-709 | after any run over self-contained files the reservation of every listed library holds, byte for byte, the file as it was loaded with its entries applied, for its needed libraries as they are now |
| `LiveSlots.WordsHold` | emulator/linker.cpp:817-885 | so the word at the place of every entry, JUMP_SLOT, GLOB_DAT, ABS32, REL32 or RELATIVE, is what the entry makes of the word loaded there |
| `LiveSlots.SlotsHoldDefinitions` | emulator/linker.cpp:736-830 | every JUMP_SLOT and GLOB_DAT word is the address of the first definition of the entry's own symbol, in a library that is on solist, linked, counted and not unmapped; 0 for a weak reference without one |
| `LiveSlots.LoadedBytesHold` | emulator/linker.cpp:817-830 | and every byte that no entry of the library itself covers is what was loaded there |
| `LiveSlots.SlotsHoldLiveAddresses` | emulator/linker.cpp:817-830 | the words at the places bound are the addresses that the life cycle recorded at link time |
| `LiveSlots.EverySlotIsBound` | emulator/linker.cpp:736-807 | and every JUMP_SLOT and GLOB_DAT entry with a definition, weak or not, is recorded with it |
| `Overwrites.WordSurvivesIff` | emulator/linker.cpp:723-955 | a word survives a pass over disjoint places, successful or not, iff the entries applied before the first rejected one write into it, if anything, the bytes that it has |
| `Overwrites.LinkSparesSlotsIff` | emulator/linker.cpp:1289-1300 | whatever a library's entries patch: its link leaves the slots of all other libraries holding what they held iff no entry applied changes a byte of one |
| `StrayEntries.StrayEntryBreaksSlot` | emulator/linker.cpp:726-727 | no place is checked: two files, two opens, after which a slot bound to dlopen is zero, overwritten by an entry of the other library |
| `LifecycleTheorems.GraphIsAcyclic` | emulator/linker.cpp:612-618 | after any run every listed library is linked, its DT_NEEDED names are all loaded, and no dependency path leads back to its start |
| `LifecycleTheorems.FailureFreeLosesNothing` | emulator/linker.cpp:1253-1268 | a run without failed opens leaks no count and strands no range |
| `LifecycleTheorems.BalancedRunRestores` | emulator/linker.cpp:650-709 | a failure-free run that closes all its handles restores the initial list and count, with nothing mapped and no byte of any library left |
| `Leaks.LeaksUnlessNothingTaken` | emulator/linker.cpp:1253-1268 | a `find_library` that fails, in any state of the invariant, leaks nothing iff it took nothing: the name is listed, the file does not load or cannot be linked or needs nothing, or its first dependency fails and itself took nothing |
| `Leaks.FailedOpenRestoresIff` | emulator/linker.cpp:633-637 | a failed open leaves every library and count as it was iff it took nothing |
| `Leaks.RunRestoresIff` | emulator/linker.cpp:650-709 | a run ends with libdl alone and its original count iff every handle was closed and every failed open took nothing; what is then still mapped was left by loads refused half-way |
| `Unmapping.DiscardUnmaps` | emulator/linker.cpp:670-671 | s_munmap and soinfo_free: the range of the library is no longer mapped, no byte of it is left, and every other range and byte stays |
| `Unmapping.UnloadOnlyGone` | emulator/linker.cpp:650-681 | a whole `soinfo_unload` takes from the address space exactly the ranges, and the bytes in them, of the libraries that it takes off solist |
| `Unmapping.CloseUnmaps` | emulator/linker.cpp:704-709 | the last close of a handle unmaps the library, every close nothing but what it takes off solist |
| `Unmapping.FailedLinkUnmaps` | emulator/linker.cpp:633-637 | a library that was loaded and failed to link is unmapped: its range is not mapped afterwards and holds no byte |
| `Unmapping.StrandsIffRefusedHalfWay` | emulator/linker.cpp:557-587 | `load_library` leaves a range mapped without a library iff its reservation was granted and then its mappings or a record were refused |
| `Unmapping.AddressSpaceIsAccounted` | emulator/linker.cpp:557-709 | after any run every mapped range is that of a listed library or of a load refused half-way, never both, and every byte lies in a mapped range |
| `Success.FinishLinkSucceedsIff` | emulator/linker.cpp:1271-1329 | the end of `soinfo_link_image` succeeds iff every entry of both tables can be applied and each of its requests, three with text relocations and one without, is granted |
| `Success.FindLibraryGranted` | emulator/linker.cpp:607-648 | a `find_library` that returns a library was refused nothing on the way, nested loads and links included |
| `Opening.SearchSucceedsIff` | emulator/linker.cpp:607-648 | with room for every reservation, `find_library` from rest returns a library iff no request is refused and the name resolves among files and names alone: it is listed, or its file loads, its DT_NEEDED names resolve in turn, one after the other, and its entries apply to the tables that those names then stand for |
| `Opening.OpenSucceedsIff` | emulator/linker.cpp:683-702 | `do_dlopen` returns a handle iff the flags have no bit outside 3, a name is given, no request is refused and the name resolves |
| `Closure.ResolvesIffLinks` | emulator/linker.cpp:607-640 | for names without a directory: a name resolves iff it is listed, or its file and those of its DT_NEEDED closure load and are acceptable at some depth, so that no cycle of names that are not listed can be opened |
| `Opening.PlainOpenSucceedsIff` | emulator/linker.cpp:683-702 | so `do_dlopen` returns a handle iff the flags are valid, no request is refused, and the closure of the name is loadable and acceptable |
| `Opening.RefusedOpenIsNull` | emulator/linker.cpp:683-702 | an open that is refused a request returns null, wherever its reservations were to go |
| `Opening.ValidFlagsIff` | emulator/linker.cpp:684 | the flags that are taken are those with no bit outside RTLD_NOW, RTLD_LAZY, RTLD_LOCAL and RTLD_GLOBAL |
| `Leaks.MissingFileLeaks` | emulator/linker.cpp:1257-1265 | an input: opening a file that needs libdl.so and one that is missing leaves libdl.so with one count too many |
| `FailedLinks.FailedLinkLeaks` | emulator/linker.cpp:1257-1265 | whenever the second DT_NEEDED entry of a file is missing and the first is loaded, the open fails and the first keeps one count for good |
| `LifecycleTheorems.TraceIsInOrder` | emulator/linker.cpp:1008-1057 | after any run: construct, destruct, unmap, each at most once per load; constructors after and destructors before those of every dependency; flags closed under DT_NEEDED and set iff the constructors ran |
| `ConstructorOrder.RunsInPostOrder` | emulator/linker.cpp:1008-1047 | `CallConstructors` runs the constructors of exactly the libraries that a depth-first walk of DT_NEEDED, entry by entry and in post-order, visits from there, those flagged already being skipped |
| `ConstructorOrder.OpenRunsInPostOrder` | emulator/linker.cpp:683-702 | so does a successful open, once the library has been found, and it runs none for the five names on its list |
| `LifecycleTheorems.ClosureFirst` | emulator/linker.cpp:1032-1040 | constructors run after those of the whole DT_NEEDED closure, however long the chain |
| `LifecycleTheorems.ClosureLast` | emulator/linker.cpp:650-681 | destructors run before those of every library down the chain that is unloaded too |
| `LifecycleTheorems.ListIsWellShaped` | emulator/linker.cpp:557-605 | after any run solist starts at libdl, has no entry twice, and its names are distinct whole basenames |
| `LifecycleTheorems.OpenConstructsUnlessSkipped` | emulator/linker.cpp:691-698 | a successful open leaves the library constructed iff its name is none of the five on the list or it was constructed before |
| `LifecycleTheorems.LastCloseRunsDestructors` | emulator/linker.cpp:650-659 | the last close begins with the library's destructors, the DT_FINI_ARRAY functions backwards and then DT_FINI, and with none if its name is one of the six on the list; whether or not its constructors ever ran, which they did iff its flag is set; a close that is not the last runs none |
| `BoundSlots.SlotsMatchMemory` | emulator/linker.cpp:817-830 | for any memory and disjoint places: what the two passes leave in each slot is the address recorded at link time |
| `BoundSlots.BindingsPointInside` | emulator/linker.cpp:404-412 | after any run a slot bound to a symbol of the provider's extent points into the provider's reservation, which is still mapped |
| `Callbacks.CallArray` | emulator/linker.cpp:959-979 | both directions of the walk, with count - 1 an unsigned difference taken for an int, so that count 0 calls nothing |
| `Callbacks.RunConstructors` | emulator/linker.cpp:1044-1046 | DT_INIT before DT_INIT_ARRAY |
| `Callbacks.RunDestructors` | emulator/linker.cpp:1052-1056 | DT_FINI_ARRAY backwards before DT_FINI |
| `Callbacks.CalledAsListed` | emulator/linker.cpp:981-987 | every function of an array is called exactly as often as it is listed, null and -1 excepted |
| `Callbacks.CalledInOrder` | emulator/linker.cpp:981-987 | and in the order of the array: one more function is one more call at the end, none if it is null or -1 |
| `Callbacks.InitFirstFiniLast` | emulator/linker.cpp:1044-1056 | DT_INIT is the first constructor called, DT_FINI the last destructor |
| `Callbacks.BackwardIsReversed` | emulator/linker.cpp:968-976 | the functions called backwards are those called forwards, in exactly the opposite order, skipped ones included |
| `Callbacks.DestructorsMirrorConstructors` | emulator/linker.cpp:1044-1056 | the destructors of a library are called in exactly the opposite order in which the same functions would be as constructors |
| `SoinfoList.ChainIsAcyclic` | emulator/linker.cpp:199-228 | a chain of next pointers that ends in null visits no record twice |
| `SoinfoList.EverySlotIsListed` | emulator/linker.cpp:138-228 | solist and the free list together are exactly libdl_info and all pool slots |
| `SoinfoList.List.EnsureFreeListNonEmpty` | emulator/linker.cpp:138-164 | a new pool is chained from its last slot to its first, only when the free list is empty |
| `SoinfoList.List.Alloc` | emulator/linker.cpp:174-197 | takes the head of the free list and appends it at sonext; fails iff the name is too long or the pool refused |
| `SoinfoList.List.Free` | emulator/linker.cpp:199-228 | unlinks the record from wherever it is on solist, moves sonext back if it was last, pushes it on the free list; a record not on solist is left alone |
| `SoinfoList.List.FindContaining` | emulator/linker.cpp:467-475 | the first record of solist whose range holds the address, null iff none does |
| `Linker.Linker.constructor` | emulator/dlfcn.cpp:212-272 | the initial records are the initial state, which satisfies the invariant |
| `Linker.Linker.FindLoadedLibrary` | emulator/linker.cpp:589-605 | the pointer walk finds the record that the specification names |
| `Linker.Linker.LoadLibrary` | emulator/linker.cpp:557-587 | on the records in memory: the specified step, a fresh record on success |
| `Linker.Linker.FinishLink` | emulator/linker.cpp:1271-1329 | relocation verdict from the needed records, flag, protections: the specified step, whose success is `Success.FinishLinkSucceedsIff` |
| `Linker.Linker.LoadNeeded` | emulator/linker.cpp:1250-1269 | the DT_NEEDED loop fills the needed array with the records of the specified scope |
| `Linker.Linker.LinkImage` | emulator/linker.cpp:1059-1330 | in place, recursive: the specified step on each exit |
| `Linker.Linker.FindLibraryInternal` | emulator/linker.cpp:607-640 | in place, recursive: the specified step and the specified record or null |
| `Linker.Linker.FindLibrary` | emulator/linker.cpp:642-648 | in place: one more count on the record returned |
| `Linker.Linker.Discard` | emulator/linker.cpp:633-637 | s_munmap and soinfo_free of a record are the specified removal, which is `Unmapping.DiscardUnmaps`, all other records keeping what they stand for |
| `Linker.Linker.CallConstructors` | emulator/linker.cpp:1008-1047 | in place, recursive: flags set before the recursion, calls logged after it, as specified |
| `Linker.Linker.Unload` | emulator/linker.cpp:650-681 | in place, recursive: the specified step; the records left were there before and stand for the same libraries |
| `Linker.Linker.AloneIsWholePool` | emulator/linker.cpp:199-228 | when libdl is alone on solist every pool slot is on the free list |
| `Linker.Linker.DoDlopen` | emulator/linker.cpp:683-702 | from rest the records take exactly the specified step, whose success is `Opening.OpenSucceedsIff` and whose invariant holds again afterwards |
| `Linker.Linker.DoDlclose` | emulator/linker.cpp:704-709 | likewise for a held handle |
| `LinkerSteps.WithoutAt` | emulator/linker.cpp:208-225 | removing an id from the list is cutting out its one position |
| `Dlfcn.SDlsym` | emulator/dlfcn.cpp:63-106 | `s_dlsym` for null arguments, RTLD_DEFAULT and a handle, as the two rows below have it |
| `Dlfcn.DlSymIff` | emulator/dlfcn.cpp:80-106 | in a well-formed table with one definition of the name, a handle's search returns an address iff some entry has that name, STB_GLOBAL and a section, and then its value plus bias; a weak definition is refused |
| `Dlfcn.DlSymDefaultIff` | emulator/dlfcn.cpp:72-79 | for RTLD_DEFAULT the first library of solist that has any definition decides: its global one is returned, and null if it is weak |
| `Dlfcn.DlsymLinearLookup` | emulator/linker.cpp:442-465 | the specified walk of solist, to the first library with a definition |
| `Dlfcn.LinearLookupIsFirst` | emulator/linker.cpp:442-465 | which has an entry of the name, global or weak, with a section, while no library before it does; and it finds nothing only if none does |
| `Dlfcn.DladdrFindSymbol` | emulator/linker.cpp:477-491 | the first defined entry whose wrapping range covers the offset from base |
| `Dlfcn.SDladdr` | emulator/dlfcn.cpp:108-131 | the caller's Dl_info is filled as specified, and not touched when no library holds the address |
| `Dlfcn.DlAddrIff` | emulator/dlfcn.cpp:108-131 | the report is of a library whose range holds the address: its name and base, and the first symbol of the nchain with a section, a range that ends below 2^32 and the offset in it, at value plus bias, or no symbol; nothing is reported only when no range holds the address |
| `Dlfcn.OnlyContaining` | emulator/linker.cpp:467-475 | in any invariant state an address inside a library's range is found in that library and no other |
| `Dlfcn.OnlyCovering` | emulator/linker.cpp:477-491 | with symbols that have sizes and do not overlap, only the symbol's own entry covers its offsets |
| `Dlfcn.DladdrInvertsDlsymIff` | emulator/dlfcn.cpp:63-131 | after any run, for tidy symbols: dladdr of the address k bytes into what dlsym returned reports that library, symbol and address iff k is at least min_vaddr |
| `Dlfcn.DladdrOfDlsymIff` | emulator/dlfcn.cpp:63-131 | so dladdr inverts dlsym on the address itself iff the library's lowest page is page 0 |
| `OffPageZero.OffPageZeroIsLost` | emulator/linker.cpp:478 | a file whose lowest page is page 1 and one open, after which its symbol is found by name, and is not what dladdr reports for the address that was found |
| `Dlfcn.SizelessIsNeverReported` | emulator/linker.cpp:484-485 | a symbol without a size is never reported |
| `Libdl.ChainEnds` | emulator/dlfcn.cpp:190-209 | the fake chain visits every later entry and ends |
| `Libdl.TableIsWellFormed` | emulator/dlfcn.cpp:169-209 | the single-bucket table is a well-formed DT_HASH for any eight addresses |
| `Libdl.LibdlExports` | emulator/dlfcn.cpp:169-272 | dlsym of libdl finds exactly its eight names, each at its own address, and libdl holds no address |

## Left out

- Lifecycle.AddRef: `ref_count` is a natural number that never wraps at 2^32; the decrement of 0 does wrap.
- Lifecycle.Image: the tables of a file are parsed already. The walk over `.dynamic` that fills the soinfo, and symbol names as offsets into a string table, are not modelled; the checks on what it found are.
- Lifecycle.FinishLink: protections enter the life cycle as requests that may be refused, and the memory layer says what they do. A place outside the memory of the loaded images makes the code fault, or write to memory that is not modelled; here such a pass leaves memory as it was. The theorem about slots is for files without such places.
- Lifecycle.MapLibrary: a load that is refused half-way leaves its reservation mapped; the bytes there, which no library ever uses, are in `ElfReader.Reader.LoadSegments` and not in the life cycle's memory.
- Lifecycle.ReserveLibrary: a refused reservation fails, as under POSIX; what the Win32 emulation makes of it is in `ElfReader.Reader.Load`.
- Linker.Linker: object identity, in-place update and both lists are modelled; the address space is a set of reserved ranges and a map of bytes there, and the needed array, which the program never frees, a sequence.
- Linker.Linker.RelocateTables: takes the memory that both passes leave from the specification instead of running the loops, which need the places to be in memory and the hash chains to end; `Composition` shows that the loops give the same.
- Opening.OpenSucceedsIff: for symbol tables whose hash index is as the gABI has it, and for an operating system that places reservations, in pages that are free, with room for any of the files; without that room see `Opening.RefusedOpenIsNull`.
- Closure.ResolvesIffLinks: for names without a directory; with directories two names can stand for one basename, and `Opening.OpenSucceedsIff` follows the order in which they are met.
- Verdict.PatchedWord: like `RelocationTheorems.RelocationResult`, for places that do not overlap.
- Lifecycle.CallConstructors: the init and fini arrays are given by the image as the functions that they hold once relocated; the program reads them from memory, whose words are those of `LiveSlots.WordsHold`.
- Linker.Linker.DoDlclose: for handles that are held; the program does not check, and closing one that is not is undefined there.
- Linker.Linker.CallConstructors: constructors and destructors are foreign code, called in the order proved and assumed not to call the linker again.
- Overwrites.LinkSparesSlotsIff: for places that are in memory and do not overlap each other.
- RelocationTheorems.RelocationResult: assumes that places do not overlap each other; the symbol, hash and relocation tables are sequences that relocation does not write.
- RebasedImage.LinkedTwice: for addresses at which the whole image stays below the last page.
- Protection.LinkedProtections: for POSIX; the Win32 protection flags merge several combinations and are not modelled.
- ElfReader.Reader.Load: starts after the ELF header and the program header table were read; what the checks on them accept is `HeaderTable.ReadFrom`, and the temporary mapping of the table is left out. It asks what the note at the head of linker_phdr.cpp asks of the segments, and a granted address that is not 0.
- Dlfcn.SDlsym: RTLD_NEXT depends on the caller's stack and is left out.
- Dlfcn.SDladdr: requires symbol entries for nchain indices, in libraries that can hold an address at all.
- Opening a file: search paths, LD_LIBRARY_PATH and descriptors are a map from names to files.
- `somain` is never assigned: `Symbols.DoLookup` takes it as an optional table, the life cycle as null, so the needed array is the whole scope. LD_PRELOAD, R_ARM_COPY and everything else that needs FLAG_EXE is unreachable; the preload list of the life cycle is empty.
- The x86 and MIPS branches, DT_RELA bodies, and the page protection of the pools.
- `s_munmap` is POSIX: it removes the range; the Win32 call, which fails on such a range, is ignored by its callers.
- `dl_unwind_find_exidx`, `dl_iterate_phdr`, error texts, tracing and statistics: nothing hard to prove.
- emulator/emulator.cpp and the Unicorn headers: calls into another library.
