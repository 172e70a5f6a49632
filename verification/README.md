# Verified model of the PE sidecar compiler and the PE loader

The repository runs Windows PE images on Linux. Two programs do the hard work, and this project models both in Dafny
and proves what they are for.

**The sidecar compiler** (`src/pe_sidecar.cpp`) reads a PE32+ image and writes an ELF file that carries the same code
with unwind information a Linux unwinder understands. It decodes Windows x64 unwind codes, follows chained records,
compiles prolog operations into DWARF call-frame programs (section 6.4 of DWARF 4, numbers in LEB128 as in section 7.6),
tiles the code with frame descriptions, and writes `.eh_frame`, its search table (section 10.6.2 of the LSB Core
specification), a System V hash table and the ELF layout around them.

**The loader** (`src/pe_loader.cpp`, driven by `src/dll_loader.cpp`) maps images, relocates them, keeps a flat export
table, and attaches images to threads: a process-wide list of images, a pending count, per-thread attached lists and TLS
slots, and a generation counter that lets a thread skip the loader locks. `tools/elf_exports.py` renames symbols of an
existing ELF file in place and rebuilds its hash table.

## How the model is organised

Each compiler stage has a specification that does not look like the code: an abstract prolog machine (`Prolog`), a DWARF
row interpreter and decoder (`CallFrame`, `EhFrameReader`), a Windows-style unwinder that undoes codes in array order
(`WindowsUnwinder`), chains of records defined without a cache (`ChainResolve`), a linear scan over frame descriptions
(`EhFrameHdr`), and the system's mapping of program headers read back from the file (`ElfLoad`). The code itself is
modelled by methods with the loops, in-place patches and caches of the source, each proved to compute a specification
function; lemmas then relate those functions to the independent definitions.

The path through the compiler is
`Sections` -> `CfiRanges`, `UnwindCodes`, `ChainResolve` -> `Compile`, `UnwindMeaning` -> `EhFrame`, `EhFrameReader`,
`EhFrameHdr` -> `UnwindTables`, beside `SymbolHash`, `SidecarSymbols`, `DynamicSymbols` -> `ElfLayout`, `ElfFile`,
`ElfImage`, `ElfLoad`. It is composed in `Sidecar.MakeSidecar`, which takes a section table, an exception directory and
exports to a file: mapping that file puts the PE image and the tables where its program headers say, those tables give,
for every code address, the frame of the prolog operations executed by then, and looking any name up in the mapped hash
section finds exactly the symbols meant to be found.

The loader is modelled on three levels that share one set of functions on values, `ThreadState`. `ThreadContext` and
`DllLoader` are classes over the source's arrays whose methods compute those functions; `LoaderProtocol` makes its steps
of them, for any number of threads in any interleaving, and proves an inductive invariant, what the generation fast path
is worth, and the pairing of attach and detach over a thread's life. `LoaderRuns.LoadIsRun` shows that the protocol's
steps of one load, taken without interruption, leave what `DllLoader.Loader.LoadDll` leaves. `Relocation`,
`Sections.FixPeImage` and `ExportTable` cover the rest of the loader, `ElfExports` the rename tool.

## What was found

Each of these is a property the code does not have on all inputs it accepts: a lemma gives the exact condition, another
an input at which it fails.

* The compiled row is right at every offset exactly when no machine frame has stack use before it and the frame register
  and every register set up before one are set up again at its code offset (`UnwindMeaning.FaithfulExactly`); a machine
  frame after a push breaks a row (`UnwindExamples.LateMachine`), one between two SET_FPREG of one offset does not
  (`UnwindExamples.RedoneFrame`).
* Undoing codes backwards agrees with the forward rows exactly when every save and every SET_FPREG happens at the depth
  of the frame base (`WindowsUnwinder.BackwardEqualsForward`, `UnwindExamples.SavedTooEarly`). There, undoing takes every
  register from the slot the row names exactly when each register's first and last store write the same slot
  (`WindowsUnwinder.WindowsMatchesDwarf`): a register pushed twice comes from different slots
  (`UnwindExamples.PushedTwice`).
* The image builders of the sidecar and of the loader agree exactly when the bytes between SizeOfHeaders and the first
  section's PointerToRawData are quiet (`Sections.BuildersAgree`); a first section without raw data leaves the loader's
  image without headers (`Sections.BuildersDiffer`).
* The two ELF hash functions agree on a name exactly when the 32-bit one never overflows on it
  (`ElfExports.HashesAgreeIff`, `ElfExports.HashesDiffer`), and a rebuilt table finds a name exactly when both hashes fall
  into one bucket (`ElfExports.RebuiltLookupExact`, `ElfExports.RebuiltLookupMisses`).
* Rolling back an image's exports is exact when the full table turns away the same lasting registrations of others with
  and without the image, and without repeated exports only then (`ExportTable.RollbackExact`); next to a full table, what
  another image registers during a failed load is lost (`ExportTable.RollbackLoses`).
* A thread whose cached generation is current (the fast path) should have every published image attached, disabled, or
  with a failed setup. It has, if and only if its last pass got a thread context and it is not draining FLS callbacks; or
  that pass got none and every published image is disabled; or it is draining and every one is disabled or had failed
  (`LoaderProtocol.FastPathExactly`). Both exceptions are reached: a pass without a context caches the generation all the
  same (`LoaderRuns.MissedReached`), and between the detach pass of an exit and the reset of the cached generation nothing
  is attached (`LoaderRuns.DrainReached`).
* An attach pass made by an FLS callback during that drain brings images back whose TLS blocks are never freed: over a
  thread's life allocations and frees match exactly when no image with a TLS directory is attached when the context is
  freed (`LoaderProtocol.ResetLeaves`, `LoaderRuns.LeakReached`).

## Model

| member | source | states |
|---|---|---|
| Leb128.UlebRoundTrip | src/pe_sidecar.cpp:553-560 | reading a written unsigned number gives it back, whatever follows |
| Leb128.SlebRoundTrip | src/pe_sidecar.cpp:562-571 | the same for signed numbers |
| Leb128.AppendUleb | src/pe_sidecar.cpp:553-560 | the loop appends exactly the ULEB128 form of any 64-bit value |
| Leb128.AppendSleb | src/pe_sidecar.cpp:562-571 | the loop appends exactly the SLEB128 form of any signed 64-bit value |
| CallFrame.InstructionRoundTrip | src/pe_sidecar.cpp:580-606 | a decoder that accepts every encoding reads each emitted instruction back |
| CallFrame.ProgramRoundTrip | src/pe_sidecar.cpp:700-725 | a whole emitted program reads back, followed by what its tail reads as |
| Compile.EmitOffset | src/pe_sidecar.cpp:599-606 | a slot off the data alignment is an error, any other becomes one extended signed rule |
| Compile.ApplyOperation | src/pe_sidecar.cpp:608-643 | updates depth, frame and bias and appends the bytes of exactly the instructions specified, or reports the error |
| Compile.AlwaysAligned | src/pe_sidecar.cpp:608-642 | depth and bias stay multiples of eight over every decoded operation list |
| Compile.CompilesIff | src/pe_sidecar.cpp:599-643 | a decoded list compiles if and only if every save is on the eight-byte grid and no frame register points above the frame top |
| UnwindMeaning.MeaningPreserved | src/pe_sidecar.cpp:703-721 | at every offset where machine frames are settled the row computes the frame top and the last slot of each saved register, after all inherited and exactly the due own operations, in 64-bit address arithmetic and for lists of any size |
| UnwindMeaning.FaithfulExactly | src/pe_sidecar.cpp:608-643 | the rows of a function are right at all offsets if and only if no machine frame has stack use before it and what was set up before one is set up again at its code offset |
| UnwindMeaning.RightExactly | src/pe_sidecar.cpp:703-721 | at each single offset, if and only if the machine frames executed by then are settled |
| UnwindMeaning.FirstIsSettled | src/pe_sidecar.cpp:608-643 | a machine frame that can only be the very first operation is settled everywhere |
| UnwindExamples.LateMachine | src/pe_sidecar.cpp:356-432 | a decodable list with a machine frame after a push compiles, and its row is wrong |
| UnwindExamples.RedoneFrame | src/pe_sidecar.cpp:608-643 | a machine frame between two SET_FPREG of one offset is right at all offsets, though not first |
| WindowsUnwinder.BackwardEqualsForward | src/pe_sidecar.cpp:356-432 | undoing backwards recovers the caller's stack pointer and every slot if and only if saves and frames are at the base |
| WindowsUnwinder.OrderlyIsAtBase | src/pe_sidecar.cpp:356-432 | lists without push or allocation after a save or frame meet that condition |
| WindowsUnwinder.WindowsMatchesDwarf | src/pe_sidecar.cpp:608-634 | with saves and frames at the base, the row's CFA is the stack pointer undoing arrives at, and undoing restores every register from the slot the row names if and only if its first and last store write one slot |
| WindowsUnwinder.RepeatedPushDiffers | src/pe_sidecar.cpp:608-634 | a register pushed twice is not stored in one place, so the two then disagree |
| UnwindExamples.PushedTwice | src/pe_sidecar.cpp:356-432 | for two PUSH_NONVOL of one register the map of restored slots and the row's map differ |
| UnwindExamples.SavedTooEarly | src/pe_sidecar.cpp:356-432 | a decodable save before an allocation is not at the base, and the two unwinders disagree on it |
| UnwindCodes.DecodeOperations | src/pe_sidecar.cpp:356-432 | the slot loop computes the specified decoding of the code array, or fails with it |
| UnwindCodes.DecodeInvertsEncode | src/pe_sidecar.cpp:356-432 | every ascending list in every legal choice of slot encodings decodes to itself, consuming all slots |
| UnwindCodes.OnlyEncodingsDecode | src/pe_sidecar.cpp:356-432 | whatever decodes is one of those encodings, byte for byte |
| UnwindCodes.DecodedCodes | src/pe_sidecar.cpp:356-432 | decoded operations are well formed, ascending by offset, and share one frame header |
| ChainResolve.Resolver.Resolve | src/pe_sidecar.cpp:434-468 | succeeds exactly when the record has a finite chain whose uncached part fits the recursion limit; the result is the uncached root-to-leaf one and the cache stays closed under parents |
| ChainResolve.Resolver.ResolveChained | src/pe_sidecar.cpp:434-463 | the same for the chained case, with the record on the stack meanwhile |
| ChainResolve.RecordsDecoded | src/pe_sidecar.cpp:316-432 | every accepted record has at most 255 well-formed ascending operations |
| ChainResolve.ChainUnique | src/pe_sidecar.cpp:434-463 | a record has at most one chain |
| ChainResolve.ChainAcyclic | src/pe_sidecar.cpp:434-463 | no record occurs twice in a chain |
| ChainResolve.CyclicHasNoChain | src/pe_sidecar.cpp:434-463 | a record whose links come back to a visited record has no chain, so it never resolves |
| Sections.CheckSections | src/pe_sidecar.cpp:232-258 | accepts exactly the tables whose sections are in bounds and pairwise disjoint |
| Sections.AdjacentCheckExact | src/pe_sidecar.cpp:254-260 | comparing sorted neighbours decides pairwise disjointness, both ways |
| Sections.AssembleImage | src/pe_sidecar.cpp:260-267 | the image holds header bytes, each section's raw bytes, and zeros elsewhere |
| Sections.FixPeImage | src/pe_loader.cpp:799-851 | the loader's builder gives the image with its own header size, or fails exactly on an empty section past the image |
| Sections.BuildersAgree | src/pe_loader.cpp:799-851 | the two images are equal if and only if the extra header bytes are quiet |
| Sections.BuildersDiffer | src/pe_loader.cpp:799-851 | for every accepted file whose first PointerToRawData is 0 the sidecar's image holds the headers and the loader's holds zeros there |
| CfiRanges.ReadRuntimeFunctions | src/pe_sidecar.cpp:286-314 | accepts exactly the well-formed directories without overlap and gives their rows sorted and disjoint |
| CfiRanges.NeighbourCheckExact | src/pe_sidecar.cpp:304-314 | the neighbour comparison after sorting decides whether any two functions overlap |
| Spans.NeighbourCheck | src/pe_sidecar.cpp:254-314 | the argument behind both neighbour comparisons, for any records with a begin and an end |
| CfiRanges.BuildCfi | src/pe_sidecar.cpp:471-478 | succeeds exactly when every function, in order and with the records of earlier ones cached, has a chain within the recursion limit whose prolog fits it; then each gets its chain's operations |
| CfiRanges.MakeCfiRanges | src/pe_sidecar.cpp:645-670 | the result is the functions and all gaps of all code sections, sorted by begin |
| CfiRanges.TilesAllCode | src/pe_sidecar.cpp:645-670 | those ranges are non-empty, sorted, disjoint, cover exactly the code, hold each function once, and every other range has no operations |
| EhFrame.EmitOwn | src/pe_sidecar.cpp:706-721 | emits an advance before each group of equal offsets and the group's instructions |
| EhFrame.EmitFde | src/pe_sidecar.cpp:693-724 | one padded record with its length patched in afterwards |
| EhFrame.EmitCie | src/pe_sidecar.cpp:676-691 | the common record, padded, with its length patched in |
| EhFrame.BuildEhFrame | src/pe_sidecar.cpp:672-727 | the specified section and the start of each record, or the error, for every list of ranges |
| EhFrameReader.SectionReads | src/pe_sidecar.cpp:672-727 | a consumer reads one common record and exactly the given ranges in order, each with address, size and program, and stops at the terminator |
| EhFrameReader.FdeReadsAlone | src/pe_sidecar.cpp:694-697 | each record reads by itself at its recorded start |
| EhFrameReader.CieEstablishesRow | src/pe_sidecar.cpp:676-690 | its initial instructions give the row every program starts from |
| EhFrameHdr.BuildEhFrameHdr | src/pe_sidecar.cpp:729-749 | the table of relative address pairs, or the range error exactly when one does not fit |
| EhFrameHdr.Search | src/pe_sidecar.cpp:729-749 | binary search finds the last entry not after an address |
| EhFrameHdr.TableAgreesWithScan | src/pe_sidecar.cpp:729-749 | the table is strictly ascending and finds for every address what a linear scan of the section finds |
| EhFrameHdr.LookupFinds | src/pe_sidecar.cpp:729-749 | looking an address up gives the frame of the range that holds it, or nothing |
| UnwindTables.DescribeCode | src/pe_sidecar.cpp:284-478 | parsing, resolving and tiling compose: it succeeds exactly on acceptable directories whose functions all resolve, and the ranges tile the code and carry their chains' operations |
| UnwindTables.EmitTables | src/pe_sidecar.cpp:864-867 | succeeds exactly when all programs compile and every offset fits; section and table then belong together: every entry leads to its range's record |
| UnwindTables.ShortChainsFit | src/pe_sidecar.cpp:434-468 | chains of up to a million records never wrap the 64-bit depth |
| UnwindTables.UnwindsEverywhere | src/pe_sidecar.cpp:645-749 | for every address a lookup succeeds exactly on code, and the row it gives is right there |
| SymbolHash.ElfHash | src/pe_sidecar.cpp:751-762 | the loop computes the hash under 32-bit wrap, always below 2^28 |
| SymbolHash.BuildTable | src/pe_sidecar.cpp:965-979 | each bucket's chain visits exactly its included symbols, in ascending order |
| SymbolHash.LookupName | src/pe_sidecar.cpp:980-986 | the consumer's walk terminates and returns the first match on the chain |
| SymbolHash.IndexExact | src/pe_sidecar.cpp:965-986 | that is the lowest included symbol of the bucket with the name, or none exactly if there is none |
| SidecarSymbols.CollectSymbols | src/pe_sidecar.cpp:807-836 | five metadata symbols, then exports without lookup and with the size of the function that starts there, then functions with address and size, all names distinct and all present |
| SidecarSymbols.BuildIndex | src/pe_sidecar.cpp:852-979 | buckets and chains of the right sizes indexing exactly the lookup symbols |
| SidecarSymbols.LookupExact | src/pe_sidecar.cpp:965-986 | a name finds a symbol exactly when a lookup symbol has it; no name reaches a PE export |
| DynamicSymbols.EntryReads | src/pe_sidecar.cpp:838-846 | entry i + 1 of .dynsym reads back as symbol i: its name through .dynstr, its value and its size |
| DynamicSymbols.BytesLookupExact | src/pe_sidecar.cpp:950-986 | a linker's walk over the bytes of .hash, .dynsym and .dynstr ends within the chain count and finds exactly the lookup symbol of that name |
| ElfExports.HashesAgreeIff | tools/elf_exports.py:7-15 | the Python hash equals the C++ one if and only if the running value never overflows 32 bits |
| ElfExports.HashesDiffer | tools/elf_exports.py:7-15 | on the bytes 255, 15 five times and 18 the Python hash is 2^32 + 2 and the C++ one 2 |
| ElfExports.RenameOne | tools/elf_exports.py:45-56 | one rename in place: same length or an error; whether it counts |
| ElfExports.RenameReaches | tools/elf_exports.py:45-54 | what one rename does to every name, including those sharing its tail: they see the replacement in the shared part, all others stay |
| ElfExports.RenameSymbols | tools/elf_exports.py:42-56 | all renames in order, each seeing the earlier ones' effect on shared bytes, and how many there were |
| ElfExports.RewriteExports | tools/elf_exports.py:42-74 | after the renames the rebuilt table indexes the final names |
| ElfExports.RebuiltLookupExact | tools/elf_exports.py:58-74 | lookup of a final name reaches its lowest index exactly when both hashes share a bucket |
| ElfExports.RebuiltLookupFinds | tools/elf_exports.py:58-74 | so it does for every name that does not overflow the hash |
| ElfExports.RebuiltLookupMisses | tools/elf_exports.py:58-74 | with three buckets an export of the overflowing name is never found |
| ElfLayout.AlignUp | src/pe_sidecar.cpp:107-112 | the least aligned value not below the sum, or the error exactly where aligning would wrap |
| ElfLayout.PlaceFront | src/pe_sidecar.cpp:785-863 | for all sizes in bounds the parts up to .eh_frame follow each other with only alignment between them |
| ElfLayout.PlaceBack | src/pe_sidecar.cpp:868-886 | and so do the parts after it |
| ElfLayout.LoadsAscend | src/pe_sidecar.cpp:925-945 | exactly five headers are PT_LOAD; each is mappable (offset and address congruent modulo the page), and they ascend on disjoint pages |
| ElfFile.Output.CopyBytes | src/pe_sidecar.cpp:764-777 | overwrites exactly those bytes, or fails exactly when they do not fit |
| ElfFile.Output.CopyRecords | src/pe_sidecar.cpp:946-963 | records written one by one are one contiguous array |
| ElfFile.ReadsBack | src/pe_sidecar.cpp:946-1032 | pieces written to disjoint places all read back, whatever the order |
| ElfImage.PhdrRoundTrip | src/pe_sidecar.cpp:946-947 | a program header reads back from its bytes |
| ElfImage.PartsApart | src/pe_sidecar.cpp:923-1032 | all sixteen parts lie inside the file and no two share a byte |
| ElfImage.WriteParts | src/pe_sidecar.cpp:923-1032 | the copies never fail and leave the specified file |
| ElfImage.BuildElf | src/pe_sidecar.cpp:849-1034 | layout, unwind tables and copies compose, with the tables built for the addresses they stand at; it fails exactly when the tables cannot be emitted there |
| ElfLoad.HeadersRead | src/pe_sidecar.cpp:925-947 | the program headers read from the file are those laid out |
| ElfLoad.ImageInMemory | src/pe_sidecar.cpp:930-931 | mapping the file puts every image byte at its RVA |
| ElfLoad.TailIsZero | src/pe_sidecar.cpp:787-789 | the file is zero from the end of the image to the metadata |
| ElfLoad.TailInMemory | src/pe_sidecar.cpp:932-933 | the page after the image is mapped and zero |
| ElfLoad.TablesInMemory | src/pe_sidecar.cpp:934-944 | the unwind sections are mapped at the addresses they were built for, and PT_GNU_EH_FRAME points at the table |
| ElfLoad.SymbolsInMemory | src/pe_sidecar.cpp:936-937 | so are .dynsym, .dynstr and .hash |
| ElfLoad.SidecarUnwinds | src/pe_sidecar.cpp:779-1034 | image and tables are in memory and unwinding through them is right at every address |
| Sidecar.ParsePe | src/pe_sidecar.cpp:228-478 | accepts exactly the files whose sections and exception directory are acceptable, with the image, the mapped and the code ranges that later stages read |
| Sidecar.WriteSidecar | src/pe_sidecar.cpp:779-1034 | writes image, tables and symbols, or fails exactly when the tables cannot be emitted |
| Sidecar.SectionSmall | src/pe_sidecar.cpp:698-701 | the distance check keeps every record start below 2 GiB, so with the last record below that the section stays within 4 GiB |
| Sidecar.MakeSidecar | src/pe_sidecar.cpp:1073-1074 | from file to file: made exactly when it parses and its tables fit; loaded, if the last unwind record is below 2 GiB, it holds the PE image at 0, unwinds every address, and looks up every name |
| Relocation.ApplyFixup | src/pe_loader.cpp:768-785 | one fixup rewrites its slot in the source's unsigned arithmetic, or reports an unknown type |
| Relocation.FixupReloc | src/pe_loader.cpp:749-793 | the nested loops, reading the table from the image they rewrite, apply every entry in order and fail exactly on an unknown type |
| Relocation.RelocationExact | src/pe_loader.cpp:768-781 | with disjoint targets each slot moves by the load distance modulo its width and no other byte changes |
| Relocation.RelocationInverts | src/pe_loader.cpp:768-781 | applying the opposite distance restores the image |
| Relocation.TableSurvives | src/pe_loader.cpp:758-791 | a table its own targets avoid is still the same table afterwards |
| Relocation.RelocateTwice | src/pe_loader.cpp:749-793 | so relocating there and back through the image's own table is the identity |
| ExportTable.Table.Register | src/pe_loader.cpp:61-73 | appends, and drops the registration only when the table is full |
| ExportTable.Table.GetExport | src/pe_loader.cpp:75-100 | the two backward scans compute the specified answer |
| ExportTable.Table.DiscardImage | src/pe_loader.cpp:102-110 | in-place compaction removes exactly one owner's entries and keeps the order |
| ExportTable.ResolvePrefersModule | src/pe_loader.cpp:75-100 | the last match in the requested module wins |
| ExportTable.ResolveFallsBack | src/pe_loader.cpp:75-100 | without one, the last match anywhere answers, or nothing |
| ExportTable.RollbackExact | src/pe_loader.cpp:102-110 | after a discard the table is the one the other events alone would have made if no lasting registration of others meets a full table in only one of the two histories, and without repeated exports only if |
| ExportTable.RoomSuffices | src/pe_loader.cpp:61-110 | so it is whenever the table never fills up |
| ExportTable.RollbackAnswers | src/pe_loader.cpp:173-184 | so every query answers as if the image had never registered |
| ExportTable.RollbackIff | src/pe_loader.cpp:61-110 | once registrations overflow the table this holds if and only if none of the others' was dropped or none of the image's was kept |
| ExportTable.RollbackLoses | src/pe_loader.cpp:61-110 | one place short of full, an image that fails takes it and another's registration is lost |
| ThreadContext.Context.constructor | src/pe_loader.cpp:211-229 | a fresh context has nothing attached and no slot but slot 0 in use |
| ThreadContext.Context.HasImage | src/pe_loader.cpp:249-255 | the scan decides membership |
| ThreadContext.Context.AttachImage | src/pe_loader.cpp:257-265 | appends exactly when the image is new and there is room |
| ThreadContext.Context.DetachImage | src/pe_loader.cpp:267-277 | the memmove removes that image and keeps the order of the rest |
| ThreadContext.Context.InitializeTls | src/pe_loader.cpp:279-329 | allocation, attachment, its rollback, and callbacks, in every combination of outcomes |
| ThreadContext.Context.NotifyAttach | src/pe_loader.cpp:338-358 | a DLL_THREAD_ATTACH pass over a snapshot |
| ThreadContext.Context.NotifyDetach | src/pe_loader.cpp:344-375 | a DLL_THREAD_DETACH pass over a snapshot in reverse |
| ThreadContext.Context.RollBack | src/pe_loader.cpp:464-481 | callbacks, entry point, free and detach of a failed process attach |
| ThreadState.SetupIs | src/pe_loader.cpp:279-329 | setup succeeds exactly when the image can be attached and its block allocated; failure changes neither list nor slots |
| ThreadState.AttachAllSettles | src/pe_loader.cpp:338-358 | one pass leaves each image attached, disabled, or with a setup that failed in this pass, and setups fail only for an index out of range or for want of a block |
| ThreadState.FailedAttachRestores | src/pe_loader.cpp:464-481 | a failed process attach leaves attached list and slots as they were |
| ThreadState.ExitIs | src/pe_loader.cpp:344-375 | thread exit empties the attached list and the slots, and its log is that of the attached images, last loaded first |
| ThreadState.ExitTally | src/pe_loader.cpp:360-374 | in that log each attached image is told once unless disabled, and each block freed once |
| DllLoader.Loader.Snapshot | src/pe_loader.cpp:146-154 | the loaded images in order with their flags |
| DllLoader.Loader.DisableThreadLibraryCalls | src/pe_loader.cpp:418-437 | sets the flag exactly for a loaded or attaching image without TLS directory |
| DllLoader.Loader.BeginProcessAttach | src/pe_loader.cpp:439-449 | reserves a place exactly when none is being attached and there is one |
| DllLoader.Loader.FinishProcessAttach | src/pe_loader.cpp:451-486 | publishes and bumps the generation, or gives the place back and rolls the thread back |
| DllLoader.Loader.LoadDll | src/dll_loader.cpp:54-68 | success, thread state and log are those of the specified load; failure restores list, pending count, generation, attached list, slots, and leaves the exports without the image |
| LoaderProtocol.StepKeeps | src/pe_loader.cpp:331-486 | every step of every thread keeps the invariant, the pass of a started thread and the drain of an exiting one included |
| LoaderProtocol.RunKeeps | src/pe_loader.cpp:331-486 | so it holds after every run of any number of threads |
| LoaderProtocol.FastPathSound | src/pe_loader.cpp:377-386 | with the generation current, a thread whose last pass got a context and that is not draining has every published image attached, disabled, or failed on this context (index out of range or no block); otherwise none is attached |
| LoaderProtocol.FastPathExactly | src/pe_loader.cpp:338-404 | with the generation current every published image is attached, disabled or failed if and only if the last pass got a context and the thread is not draining, or that pass got none and all are disabled, or it is draining and all are disabled or failed |
| LoaderProtocol.BlindIs | src/pe_loader.cpp:338-386 | whether the last pass got no context can be read off the run: a snapshot without context since the thread's last completed pass or reset |
| LoaderProtocol.FastPathWithContexts | src/pe_loader.cpp:377-386 | when the thread's own passes all got a context, whatever other threads met: attached, disabled, or failed its setup |
| LoaderRuns.FastPathReached | src/pe_loader.cpp:377-386 | such states are reached: a run exists after which a thread with a published image takes the fast path |
| LoaderRuns.MissedReached | src/pe_loader.cpp:338-386 | a run after which a thread takes the fast path with a published image not attached, disabled or failed, because its pass got no context |
| LoaderRuns.DrainReached | src/pe_loader.cpp:388-404 | a run into the drain of an exit in which the fast path is taken with nothing attached |
| LoaderProtocol.AttachStateSafe | src/pe_loader.cpp:418-486 | loaded plus pending stay within 32, attached lists have no duplicates and only loaded or attaching images, a slot is in use exactly when one attached image owns it, no TLS image is ever disabled |
| LoaderProtocol.RoomAlways | src/pe_loader.cpp:257-265 | the attached list never overflows: attach_image cannot fail for lack of room |
| LoaderProtocol.NeverStuck | src/pe_loader.cpp:338-486 | what each phase calls for is always possible, whatever the allocator and entry points answer |
| LoaderProtocol.FailedLoadRestores | src/pe_loader.cpp:464-483 | rolling back a failed load leaves attached list and slots as the load found them, with other threads running in between |
| LoaderRuns.LoadIsRun | src/dll_loader.cpp:54-68 | the steps of a load without interruption leave the state the loader class computes |
| LoaderProtocol.ExitComplete | src/pe_loader.cpp:388-402 | up to the detach of a thread each image had at most one DLL_THREAD_ATTACH, exactly one DLL_THREAD_DETACH if attached and enabled, and every block taken was freed once |
| LoaderProtocol.ResetLeaves | src/pe_loader.cpp:402-407 | when the context is freed, exactly the images then attached with a TLS directory still hold a block; so allocations and frees match if and only if there are none |
| LoaderRuns.LeakReached | src/pe_loader.cpp:402-407 | a run whose exit leaves a block behind |

## Left out

- Parsing of DOS, NT and optional headers and of export names: field reads and range checks one branch settles; the model starts from the section table, the exception directory and the export list.
- File, mmap, dlopen and other system calls, GS base, MXCSR, stack bounds and logging.
- The bodies of DllMain, TLS and FLS callbacks. Those of DllMain and TLS are events in a thread's log, and a thread takes no other step while one runs; FLS callbacks may take any step between the detach and the freeing of the context.
- `pe_initialize_tls_for_loaded_images`, which nothing in the loader calls.
- Memory ordering: the steps of `LoaderProtocol` are atomic. The loader's recursive mutex is not modelled, so its interleavings are a superset of the real ones.
- The caller of `load_dll` is assumed to pass an image that is neither loaded nor being attached, and TlsAlloc to give no two images that are loaded or being attached the same index (an index freed by a failed load may come back); indices of 1024 and above are modelled and fail setup.
- Recovery of the caller's stack pointer through a hardware machine frame: rows set the CFA and the return-address slot only.
- Contents of ELF header, section headers, note and dynamic entries: byte strings of the right sizes whose places are modelled. `p_paddr` is not read back.
- `std::sort` is modelled by insertion sort; wherever its result is used, the sorted begins turn out distinct, so the order is determined.
- EhFrame.BuildEhFrame: above 4 GiB only its length and its wrapped offsets are stated, because its 32-bit fields cannot describe such a section. Distances that overflow the signed 64-bit difference of the source are computed without overflow.
- EhFrameHdr.BuildEhFrameHdr: virtual addresses are below 2^62, so that 64-bit differences do not overflow.
- UnwindMeaning.FaithfulExactly: requires that the frame fits below 2^63, where a depth that wraps to 0 could settle a machine frame by accident; UnwindTables.ShortChainsFit shows that decoded chains of up to a million records fit.
- ChainResolve.Resolver.Resolve: after a failure nothing is stated about the cache, because the exception ends the whole parse.
- Sections.FixPeImage: requires a table the sidecar would accept and a first PointerToRawData inside file and image; the source reads out of bounds otherwise.
- Relocation.FixupReloc: requires a table that lies in the image, has blocks of at least eight bytes, and whose targets lie in the image and avoid the table; the source reads or writes out of bounds, or reads its own rewritten table, otherwise.
- ElfExports.RewriteExports: requires a string table ending in zero with offsets inside it, and as many chains as dynamic symbols.
- ElfLayout.PlaceFront: states nothing for sizes out of bounds (more than 2^31 symbols, where the 32-bit hash word count can wrap, or vectors beyond 2^56 elements).
- ElfImage.BuildElf: takes the strings and records that do not depend on the tables as one function of the layout, and treats an .eh_frame beyond 2^61 bytes as an allocation failure.
- ExportTable.Table.GetExport: names are compared as strings of characters; a null name is not modelled.
- ExportTable.RollbackExact: that the condition is necessary is stated for events that register no export twice; ExportTable.RollbackIff needs no such assumption but speaks of plain registrations.
- DynamicSymbols.BytesLookupExact: names of at most 4 GiB together, since name offsets are stored in 32 bits.
- Sidecar.MakeSidecar: refuses counts no vector can reach (ElfLayout.Bounded), and says what loading gives when the last unwind record is below 2 GiB; names are C strings.
- DllLoader.Loader.LoadDll: starts at pe_begin_process_attach; mapping, linking and setting up the thread block come before it.
- LoaderProtocol.ExitComplete: DLL_THREAD_DETACH and its list walk are one step; only the thread's own state takes part in it.
- LoaderProtocol.FastPathExactly: which FLS callbacks run during the drain, and in what order, is not modelled.
- The counterparts of generated wrappers, forwarding stubs, import stubs and ordinal tables.
