# RevCPU core: ELF loader, extension dispatch, FP guard, RV64A, tracer encodings

A Dafny model of the sequential, integer-only core of the RevCPU RISC-V
simulator (an SST element), together with proofs about that model.

- **ELF loader** (`RevLoader`). The model covers:
  - the `e_ident` checks;
  - the Elf32 and Elf64 loading passes, over the file as a byte sequence with fields read little-endian;
  - cache-line write chunking;
  - static-data-end selection;
  - `PT_LOAD` copying and zero fill;
  - the program-header table pushed onto the stack;
  - the symbol table and its inverse `tracer_symbols`;
  - splitting the argument string, and the `argv` strings pushed on a 16-byte-aligned stack.

  Memory (`RevMem`) is a log of the calls the loader makes (`AddMemSeg`, `WriteMem`, `SetStackTop`, `InitHeap`, `FenceMem`) plus the stack top. `WriteMem`'s answer is an oracle parameter. `output->fatal` is the outcome `Fatal(message)`, with the source's message text. A read past the end of the mapped file that happens before any check catches it is the outcome `Undefined`.
- **Extension dispatch** (`RevExt`). An extension holds a name and three instruction tables. `Execute` picks `ctable` or `table` by the compressed bit and rejects a missing entry. When the instruction can raise FP exceptions, `Execute` wraps the handler in the FP guard and installs the rounding mode. The handler is a parameter.
- **FP-environment guard** (`RevFenv`). This is a state machine over four things:
  - the host environment: its raised exceptions and rounding mode;
  - the saved environment;
  - the thread-local cached rounding mode;
  - the five sticky FCSR flags.
- **RV64A**. Covers `lr.d`, `sc.d` and the nine AMOs:
  - the aq/rl flag composition;
  - the PC and cost updates;
  - the request each handler hands to memory;
  - the encoding table and the constructor.

  `LR`, `SC`, `AMOVal` and `RandCost` are opaque: requests are data, and the cost is a parameter.
- **Small records and encodings**:
  - `RevThreadCtx`;
  - the `TraceEvents_t` bit layout;
  - the `s2op` HINT words;
  - `TRC_CMD_IDX` and `NOP_COUNT`;
  - `event2char`;
  - the guest-side trace macros of `rev-macros.h`.
- **Reference semantics** of `slli` and `slliw` on 64-bit bit-vectors, and of `divw` on registers read as integers in `0 .. 2^64`. Every arithmetic test row of `slli.c`, `slliw.c` and `divw.c` is a lemma.

One module per component:

- `Common` in `common.dfy`
- `ElfFile` in `elf_file.dfy`
- `ElfIdent` in `elf_ident.dfy`
- `ElfSections` in `elf_sections.dfy`
- `ElfLoader` in `elf_loader.dfy`
- `CacheLine` in `cache_line.dfy`
- `RevMem` in `rev_mem.dfy`
- `ProgramArgs` in `program_args.dfy`
- `SymTable` in `sym_table.dfy`
- `RevFenv` in `rev_fenv.dfy`
- `RevExt` in `rev_ext.dfy`
- `RV64A` in `rv64a.dfy`
- `ThreadCtx` in `thread_ctx.dfy`
- `Tracer` in `tracer.dfy`
- `RevMacros` in `rev_macros.dfy`
- `IsaRef` in `isa_ref.dfy`

Integer widths are written out:
- Elf32 field sums wrap at 2^32, and Elf64 and `size_t` sums wrap at 2^64.
- The RV32 stack pointer is truncated to 32 bits.
- The symbol-name `maxlen` is an `unsigned`.
- The Elf64 symbol-loop counter is an `unsigned`, compared against a 64-bit count. Its wrap-around is not modelled; see "## Left out".
- The PC wraps at 2^64.

Where the loader's checks and reads are interleaved, the model keeps the code's order. For example, `shstrtab` is read from `sh[e_shstrndx]` before `e_shstrndx` is bounds-checked.

Three behaviours of the code are modelled as written:
- `splitStr` appends nothing when the argument string has no space, so a lone argument after the executable is dropped (`ProgramArgs.LoneTokenDropped`). With one or more spaces every space-separated token, empty ones included, becomes an argument.
- Every RV64A row sets `rs2Class` to `RegUNKNOWN`, `lr.d`'s included.
- The RV64A funct7 fields hold the 5-bit funct5 values as written in the table (`0b00010`, …), not those values shifted into funct7.

A `std::vector` whose requested length exceeds `max_size()` (2^63 - 1 bytes for `uint8_t` in libstdc++) throws `std::length_error`, which nothing in the loader catches. An Elf64 `PT_LOAD` header with `p_memsz < p_filesz` asks for `p_memsz - p_filesz` wrapped at 2^64; when `p_filesz - p_memsz <= 2^63` (always, for a file under 2^63 bytes) that exceeds `max_size()`, so the model ends that load as `Fatal` with the library's message, and a larger shortfall wraps to a small length whose zeros are written as requested.

## Model

| member | source | states |
|---|---|---|
| ElfIdent.IsElfIsMagic | src/RevLoader.cc:26-34 | `IsElf` holds exactly when identification bytes 0..3 are 0x7f 'E' 'L' 'F' |
| ElfIdent.ClassesExclusive | src/RevLoader.cc:36-58 | Elf32 and Elf64 exclude each other and each implies the magic and its class byte; little- and big-endian exclude each other |
| ElfIdent.CheckHeader | src/RevLoader.cc:500-509 | a file shorter than an Elf64 header, an unknown class, or a non-little-endian data byte is fatal with the message the code prints, in that order; otherwise the class is read from byte 4 |
| ElfFile.DecodeEncode | src/RevLoader.cc:130-143 | decoding the little-endian encoding of a value that fits gives the value back |
| ElfFile.EncodeDecode | src/RevLoader.cc:130-143 | re-encoding a decoded field gives the original bytes |
| ElfFile.ReadLEEncodes | src/RevLoader.cc:130-143 | a field read inside the file is below 256^width and is the decoding of exactly those bytes |
| ElfFile.FileBytes | src/RevLoader.cc:211-213 | the copied file range exists exactly when it lies inside the file (or is empty) and is the file's bytes there |
| ElfFile.Trunc | src/RevLoader.cc:189-199 | a header sum reduced to the class's word width: in range, unchanged; one overflow or underflow, wrapped once |
| ElfFile.FieldsInsideRecords | src/RevLoader.cc:277-286 | every header, program-header, section-header and symbol field lies inside its record and fits the class word |
| ElfFile.Phdr | src/RevLoader.cc:136 | a program-header field is readable exactly when its bytes lie inside the file, and then fits the class word |
| ElfFile.Shdr | src/RevLoader.cc:139 | a section-header field is readable exactly when its bytes lie inside the file, and then fits the class word |
| ElfFile.Sym | src/RevLoader.cc:257 | a symbol field is readable exactly when its bytes lie inside the file; `st_name` is below 2^32 |
| ElfFile.CmpFromSpec | src/RevLoader.cc:163 | the byte comparison succeeds exactly when the literal matches in the file, and fails by running off the file exactly when it does |
| ElfFile.StrEqAt | src/RevLoader.cc:163-171 | `strcmp(shstrtab + name, lit) == 0` holds exactly when the literal and a NUL follow in the file |
| ElfFile.StrnLen | src/RevLoader.cc:264 | `strnlen` returns at most `maxlen`, over non-NUL bytes, stopping at a NUL when below `maxlen`; it runs off the file exactly when the bytes before a NUL or `maxlen` do |
| ElfFile.StrnLenExhausted | src/RevLoader.cc:264 | `maxlen` non-NUL bytes give `maxlen` |
| ElfFile.StrnLenFindsNul | src/RevLoader.cc:264 | the first NUL below `maxlen` gives its position |
| ElfLoader.HeaderOf | src/RevLoader.cc:131-143 | header counts are 16-bit and addresses and offsets fit the class word |
| ElfLoader.PhdrSeg | src/RevLoader.cc:146-152 | a program header whose file range fits gives its `AddMemSeg(p_paddr, p_filesz)`; one that does not is the class's fatal error |
| ElfLoader.PhdrSegValue | src/RevLoader.cc:151 | the segment added is `(p_paddr, p_filesz, writable)` |
| ElfLoader.PhdrSegsOk | src/RevLoader.cc:146-152 | the first pass succeeds exactly when every program header's file range fits |
| ElfLoader.PhdrSegsAt | src/RevLoader.cc:146-152 | the k-th logged segment is the k-th program header's |
| ElfLoader.StackPointer | src/RevLoader.cc:199 | the new stack top is the old one lowered by `e_phnum * sizeof(Phdr)` when that does not wrap, in the class's width |
| ElfLoader.PushPhdrTable | src/RevLoader.cc:188-201 | a file too short for the table is fatal; otherwise the table's file bytes are stored by cache-line writes at the lowered stack top, each chunk at its own address, and then `SetStackTop` of that top is logged |
| ElfLoader.Zeros | src/RevLoader.cc:215 | the zero-fill buffer holds `p_memsz - p_filesz` (wrapped) zero bytes |
| ElfLoader.ZerosTooLongExactly | src/RevLoader.cc:362 | the Elf32 zero buffer is never too long; an Elf64 header with `p_memsz < p_filesz` asks for more than `max_size()` exactly when `p_filesz - p_memsz <= 2^63` (always, for a file under 2^63 bytes); with `p_memsz >= p_filesz` it does exactly when the difference exceeds 2^63 - 1 |
| ElfLoader.WriteFileBytes | src/RevLoader.cc:207-214 | with `p_filesz == 0` nothing is written; a file range outside the file is fatal; otherwise the segment's file bytes are stored at `p_paddr`, each chunk at its address |
| ElfLoader.WriteZeros | src/RevLoader.cc:215-218 | a zero buffer longer than `max_size()` is the `length_error`, and only then; otherwise the zero bytes are stored at `p_paddr + p_filesz` (wrapped), each chunk at its address |
| ElfLoader.LoadSegment | src/RevLoader.cc:204-219 | a non-`PT_LOAD` header or `p_memsz == 0` writes nothing; a loadable one stores its file bytes at `p_paddr` and then the zero fill right after them; an over-long zero buffer fails the load; the stack top is unchanged |
| ElfLoader.SegmentWritesImage | src/RevLoader.cc:207-218 | the bytes a segment's writes carry are its file bytes followed by its zero fill |
| ElfLoader.LoadSegments | src/RevLoader.cc:203-220 | the segment pass appends exactly each header's segment writes, in header order, and keeps the stack top; a table whose headers all have `p_memsz == 0` loads and leaves memory as it was |
| ElfLoader.AllEmptyWritesNothing | src/RevLoader.cc:204-206 | headers that all have `p_memsz == 0` contribute no writes to the segment pass |
| ElfLoader.CheckShdrTable | src/RevLoader.cc:222-230 | the three section-table checks, in order: table inside the file, `e_shstrndx < e_shnum`, section-name table inside the file |
| ElfLoader.SymCount | src/RevLoader.cc:259 | the symbol count is `sh_size / sizeof(Sym)`, rounded down |
| ElfLoader.LoadSymbolTable | src/RevLoader.cc:250-269 | the string and symbol tables are added as segments, in that order; the table built is the symbols read from the file entered in order into an empty `symtable`, and it is sorted by name |
| ElfLoader.LoadedSymbolValue | src/RevLoader.cc:258-268 | after the symbol loop a name maps to the `st_value` of the last symbol read with that name, and a name no symbol has is absent |
| ElfLoader.FirstPasses | src/RevLoader.cc:140-186 | the section-name table read runs first; the log gains the program-header segments then the section segments; the sections are the ones read from the file, and the static-data end is the one chosen from them |
| ElfLoader.SecondPass | src/RevLoader.cc:222-269 | the section-table checks pass; when `strtabidx` or `symtabidx` is 0 the symbol table is empty and only the second loop's segments are logged, otherwise the result is the symbol-table load on the indices found |
| ElfLoader.LoadProgram | src/RevLoader.cc:188-220 | the log gains the program-header table stored at the lowered stack top, `SetStackTop`, then every header's segment writes; the stack top ends lowered by the table |
| ElfLoader.LoadClass | src/RevLoader.cc:277-424 | the entry point and `elfinfo` from the header; the static-data end chosen from the sections; the symbol table built from the file's symbols when both tables were found and empty otherwise; the whole log in order, ending with `InitHeap(staticDataEnd)` |
| ElfLoader.Finish | src/RevLoader.cc:519-541 | `argv` is the executable followed by the split arguments; `tracer_symbols` is the inverse of `symtable`; each argument with its NUL is stored at its own 16-byte-aligned stack top after setting that top; `FenceMem(0)` comes last |
| ElfLoader.LoadElf | src/RevLoader.cc:483-542 | a header failure is that fatal error; every fatal message is one the loader prints or the `length_error`; on success the image is the class loader's over the file, `tracer_symbols` inverts the symbol table, and the arguments follow at their stack addresses before the fence |
| ElfSections.ReadSection | src/RevLoader.cc:161-173 | a section is `.bss` exactly when its name compares equal to ".bss"; address and size fit the class word |
| ElfSections.ReadSectionsAt | src/RevLoader.cc:161-173 | the k-th section read is the k-th section header's |
| ElfSections.ScanEndsLastWins | src/RevLoader.cc:161-171 | each of the `.bss`, `.text` and `.data` ends is the one of the last section with that name, or 0 |
| ElfSections.SectionSegs | src/RevLoader.cc:172 | one `AddMemSeg(sh_addr, sh_size)` per section header, in order |
| ElfSections.StaticDataEnd | src/RevLoader.cc:174-186 | `.bss` end if nonzero, else `.data`, else `.text`; all zero is fatal |
| ElfSections.StaticEndFromSections | src/RevLoader.cc:161-186 | the static-data end is the last `.bss`'s end when nonzero, else the last `.data`'s when nonzero, else the last `.text`'s when nonzero; no such section at all is fatal |
| ElfSections.TabSeg | src/RevLoader.cc:384 | only the Elf64 pass adds a segment for every section in its second loop |
| ElfSections.TabNames | src/RevLoader.cc:240-247 | a section whose bytes lie outside the file is fatal before its name is compared |
| ElfSections.ReadTabSection | src/RevLoader.cc:236-247 | a section found as `.strtab` or `.symtab` is not `SHT_NOBITS` and lies inside the file |
| ElfSections.ReadTabSectionsAt | src/RevLoader.cc:383-397 | the k-th scanned section is the k-th section header's |
| ElfSections.TabSegsCount | src/RevLoader.cc:383-384 | the second loop logs one segment per section for Elf64 and none for Elf32 |
| ElfSections.TableIndexLastWins | src/RevLoader.cc:243-247 | `strtabidx` and `symtabidx` are the last matching sections' indices, or 0 |
| ElfSections.ReadSymbol | src/RevLoader.cc:259-267 | `st_name >= strtab size` is fatal; otherwise the name is the NUL-terminated byte string at `strtab + st_name`, shorter than `maxlen`, paired with `st_value` |
| ElfSections.UnterminatedNameFatal | src/RevLoader.cc:264-265 | a name without a NUL within `maxlen` bytes is fatal |
| ElfSections.ReadSymbolsAt | src/RevLoader.cc:259-268 | the k-th symbol read is the k-th symbol entry's |
| ElfSections.InsertAllSorted | src/RevLoader.cc:267 | inserting symbols keeps the table sorted by name |
| ElfSections.SymtableLastWins | src/RevLoader.cc:258-268 | a name maps to the value of its last symbol, or keeps its earlier value |
| CacheLine.ZeroLineSizeIs64 | src/RevLoader.cc:68-72 | a reported line size of 0 chunks exactly like 64 |
| CacheLine.Chunks | src/RevLoader.cc:61-128 | no write for length 0; one write `(Addr, Len)` below the line size; otherwise the first write starts at `Addr` at offset 0 |
| CacheLine.ChunksContiguous | src/RevLoader.cc:95-125 | the writes are contiguous, end at `Len`, are at most a line each, and the first has the distance to the next line boundary |
| CacheLine.ChunksAddrs | src/RevLoader.cc:102-121 | each write's address is `Addr` plus its offset, wrapped at 2^64 |
| CacheLine.ChunkLengthsSum | src/RevLoader.cc:95-125 | the write lengths sum to `Len` |
| CacheLine.FirstLenBoundary | src/RevLoader.cc:95 | the first write ends on the next line boundary, and is a full line exactly when `Addr` is aligned |
| CacheLine.LineBase | src/RevLoader.cc:83-92 | the base is the greatest line-aligned address not above `Addr` |
| CacheLine.BaseCacheAddr | src/RevLoader.cc:83-92 | the decrementing loop finds that base |
| CacheLine.LaterChunksAligned | src/RevLoader.cc:107-125 | every write after the first starts line-aligned, and all but the last are full lines |
| CacheLine.ZeroLengthTrailingWrite | src/RevLoader.cc:107-125 | the do-while issues a trailing zero-length write exactly when `Addr` is aligned and `Len == lineSize`; no other write is empty |
| CacheLine.RemainderShape | src/RevLoader.cc:107-125 | the do-while's writes are contiguous, full lines except the last, and end at `Len` |
| CacheLine.RemainderStep | src/RevLoader.cc:108-123 | one iteration writes `min(lineSize, Len - Total)` and continues while `Total < Len` |
| CacheLine.RemainderAddrs | src/RevLoader.cc:116-121 | the do-while's addresses advance with the offsets |
| CacheLine.DoWhileWrites | src/RevLoader.cc:107-125 | the loop's writes are the do-while's |
| CacheLine.WriteCacheLine | src/RevLoader.cc:61-128 | the method issues exactly the chunked writes, whose lengths sum to `Len` |
| RevMem.IssueChunks | src/RevLoader.cc:98-118 | the chunked writes succeed exactly when memory accepts each; a refusal is the cache-line fatal error |
| RevMem.WriteCacheLine | src/RevLoader.cc:61-128 | length 0 returns true and logs nothing; a small write is one `WriteMem` whose answer is returned; a chunked write succeeds exactly when all chunks are accepted, and then logs each chunk at its address |
| RevMem.StoresAt | src/RevLoader.cc:98-121 | the k-th write of a cache-line store carries the k-th chunk's bytes at `Addr` plus that chunk's offset, wrapped at 2^64; the first chunk starts at `Addr` |
| RevMem.StoresTile | src/RevLoader.cc:95-125 | consecutive writes of a store cover adjacent byte ranges, and the last ends at `Len` |
| RevMem.StoresPayload | src/RevLoader.cc:95-125 | the writes of a store carry the data buffer in order |
| RevMem.WritesCarryData | src/RevLoader.cc:95-125 | the chunked writes carry the data buffer, in order and without gaps |
| RevMem.WriteCacheLineStoresData | src/RevLoader.cc:61-128 | a successful write appends writes whose payloads concatenate to the data |
| ProgramArgs.SplitJoin | src/RevLoader.cc:468-481 | joining the space-separated pieces of a string with spaces gives the string back |
| ProgramArgs.JoinSplit | src/RevLoader.cc:468-481 | splitting a join of space-free tokens gives the tokens back |
| ProgramArgs.SplitCount | src/RevLoader.cc:468-481 | a string with k spaces has k + 1 pieces |
| ProgramArgs.SplitSpaceFree | src/RevLoader.cc:468-481 | no piece contains a space |
| ProgramArgs.SplitStrTokens | src/RevLoader.cc:468-481 | no space appends nothing; k >= 1 spaces append k + 1 tokens, empty ones included, which join back to the string |
| ProgramArgs.SplitStr | src/RevLoader.cc:468-481 | the `find`/`substr` loop appends exactly those tokens |
| ProgramArgs.LoneTokenDropped | src/RevLoader.cc:474 | a non-empty argument string without a space adds no argument |
| ProgramArgs.Argv | src/RevLoader.cc:433-438 | `argv[0]` is the executable and the rest are the split tokens |
| ProgramArgs.GetArgv | src/RevLoader.cc:426-431 | an index in range gives that argument, a larger one the empty string; on an empty `argv` the unsigned `size() - 1` wraps and the read is undefined |
| ProgramArgs.AlignDown16Rounds | src/RevLoader.cc:458 | `sp & ~0xF` rounds down to a multiple of 16 by less than 16 |
| ProgramArgs.ArgTop | src/RevLoader.cc:450-460 | the new stack top is 16-byte aligned and between 0 and 15 bytes below `top - (size + 1)` |
| ProgramArgs.PushArg | src/RevLoader.cc:450-462 | the stack top is set first, then the argument and its NUL are stored at that top, each chunk at its address |
| ProgramArgs.PushArgs | src/RevLoader.cc:447-463 | for each argument in order, its 16-byte-aligned top is set and the argument with its NUL is stored there; the final stack top is the last argument's |
| ProgramArgs.PushArgsImage | src/RevLoader.cc:447-463 | the bytes written are the NUL-terminated arguments in order |
| ProgramArgs.PushArgsStack | src/RevLoader.cc:447-463 | without wrap-around the stack ends below all argument bytes, at most 15 bytes per argument lower, 16-byte aligned |
| SymTable.Insert | src/RevLoader.cc:267 | `symtable[name] = value` adds `name` to the keys |
| SymTable.InsertSorted | src/RevLoader.cc:267 | insertion keeps the table sorted by name |
| SymTable.InsertLookup | src/RevLoader.cc:267 | after the insertion `name` maps to `value` and every other name is unchanged |
| SymTable.InsertIsMapUpdate | src/RevLoader.cc:416 | insertion is the map update `m[name := value]` |
| SymTable.LookupUnique | src/RevLoader.cc:546-547 | in a sorted table a listed pair is what lookup finds |
| SymTable.GetSymbolAddr | src/RevLoader.cc:544-550 | a known name gives its address, an unknown one 0 |
| SymTable.Emplace | src/RevLoader.cc:526 | `emplace` leaves an existing key alone and adds a new one |
| SymTable.EmplaceAllSpec | src/RevLoader.cc:523-531 | the loop's keys are the symbol addresses; each new address gets the first name that has it |
| SymTable.FirstNameLeast | src/RevLoader.cc:523-531 | in name order, the first name with an address is the least |
| SymTable.TracerInvertsSymtable | src/RevLoader.cc:523-531 | `tracer_symbols` inverts `symtable`: its keys are the addresses, each maps to a name with that address, and of names sharing an address the least wins |
| RevFenv.Fesetround | include/RevFenv.h:87 | the host mode changes exactly for the four valid modes, which return 0 |
| RevFenv.Acquire | include/RevFenv.h:46-51 | the guard saves the host environment and clears its exception flags; a failing `feholdexcept` is the error |
| RevFenv.Accrue | include/RevFenv.h:57-62 | DIVBYZERO sets DZ, INEXACT NX, INVALID NV, OVERFLOW OF, UNDERFLOW UF; nothing else changes a flag |
| RevFenv.AccrueSticky | include/RevFenv.h:57-62 | flags are only ever set, and accruing twice is accruing once |
| RevFenv.Release | include/RevFenv.h:54-66 | the destructor accrues the flags and restores the saved host environment, but leaves the cached mode alone |
| RevFenv.ReleaseResync | include/RevFenv.h:54-66 | the corrected destructor also re-syncs the cached mode to the restored one |
| RevFenv.RoundingMode | include/RevFenv.h:38-41 | the cached mode, initialised from the host mode on first use |
| RevFenv.GetRoundingMode | include/RevFenv.h:79-81 | returns the cached mode |
| RevFenv.SetRoundingMode | include/RevFenv.h:84-93 | the cached mode unchanged gives 0 with no host call; a valid new mode is installed in host and cache; a failing one leaves both and returns the error |
| RevFenv.SetRoundingModeIdempotent | include/RevFenv.h:84-93 | a second successful call with the same mode changes nothing |
| RevFenv.SetRoundingModeTakesEffect | include/RevFenv.h:84-93 | from a cache that matches the host, the call succeeds exactly for the cached or a valid mode, and then the host runs in that mode |
| RevFenv.SetRoundingModeInForce | include/RevFenv.h:84-93 | from any cache, a valid mode ends up cached; the host is switched to it unless the cache already named it, in which case the host keeps its own, possibly different, mode |
| RevFenv.ResyncKeepsCoherent | include/RevFenv.h:46-66 | the guard and the corrected release keep the cache matching the host |
| RevFenv.Guarded | include/RevFenv.h:46-66 | a guarded execution leaves the host environment as it found it |
| RevFenv.StaleCacheSkipsRoundingChange | include/RevFenv.h:38-93 | two guarded RTZ executions from RNE: the first runs under RTZ, the second under RNE |
| RevFenv.ResyncedRoundingApplies | include/RevFenv.h:38-93 | with the corrected release every guarded execution runs under the mode requested |
| RevExt.NewExt | include/RevExt.h:74-79 | the constructor's name and register file, and three empty tables |
| RevExt.SetTable | include/RevExt.h:85-87 | replaces the standard table only |
| RevExt.SetCTable | include/RevExt.h:90-92 | replaces the compressed table only |
| RevExt.SetOTable | include/RevExt.h:95-97 | replaces the optional table only |
| RevExt.SetRegFile | include/RevExt.h:117 | replaces the register file only |
| RevExt.NameSurvivesSetters | include/RevExt.h:74-117 | `GetName` returns the constructor's name whatever was set since |
| RevExt.HostMode | src/RevExt.cc:23-34 | RNE, RTZ, RDN and RUP and only those map to a valid host rounding mode |
| RevExt.HostModeInjective | src/RevExt.cc:23-34 | different encoded modes map to different host modes |
| RevExt.SetRoundingMode | src/RevExt.cc:15-45 | DYN is replaced by `frm`; None does nothing; the four modes go to the guard's `SetRoundingMode`; RMM and any other value are fatal with the PC |
| RevExt.SetRoundingModeInstalls | src/RevExt.cc:15-34 | from a coherent cache, each of the four modes is installed on the host |
| RevExt.Lookup | src/RevExt.cc:54-60 | a compressed instruction is found in `ctable`, any other in `table`; an index past the end or a null entry finds nothing |
| RevExt.Execute | src/RevExt.cc:15-98 | a missing entry in the selected table is fatal with index and name; without `raisefpe` the handler runs in the current environment; with it the guard comes first, so a failing `feholdexcept` is fatal exactly then, whatever the rounding mode; after it, an effective `RMM` is fatal with the PC, and so is any other mode the host lacks; on success the host environment is restored and FCSR flags only accrue; the corrected release re-syncs the cache, and the release as written leaves the cache untouched when no mode is set |
| RevExt.ExecuteIgnoresOtherTables | src/RevExt.cc:54-60 | `otable` is never read, and only the table the compressed bit selects matters |
| RevExt.GuardedExecute | src/RevExt.cc:71-97 | with `raisefpe` and any cache state, the handler's result is returned, its exceptions accrue to FCSR, and the host is restored; the handler runs in the requested rounding mode, except that a cache already holding that mode while the host is in another skips `fesetround` and leaves the host's mode in force, which a coherent cache never does; with the release as written and a rounding mode the cache keeps that mode, stale exactly when it differs from the host's; with the corrected release the cache stays coherent |
| RV64A.AqRlFlags | include/insns/RV64A.h:46-56 | AQ is set exactly when `aq` is, RL exactly when `rl` is, and nothing else |
| RV64A.AqRlFlagsIndependent | include/insns/RV64A.h:49-56 | the if/else chain sets each ordering bit independently |
| RV64A.AmoFlags | include/insns/RV64A.h:46-56 | an AMO's flag word holds its operation, not SEXT64, and the aq/rl part |
| RV64A.NextPc | include/insns/RV64A.h:30 | `RV64_PC += instSize` on a 64-bit PC |
| RV64A.Handler | include/insns/RV64A.h:23-277 | every handler returns true, keeps registers, advances the PC; AMOs add `RandCost(min, max)` to the cost; the request carries hart, `RV64[rs1]`, rs2, rd, hazard and flags as the code passes them |
| RV64A.HandlerRequestsDistinct | include/insns/RV64A.h:23-277 | different handlers never issue the same request |
| RV64A.TableWellFormed | include/insns/RV64A.h:287-305 | 11 rows sharing opcode 0b0101111, funct3 0b011 and rs2 class RegUNKNOWN, each with an implementation; only `lr.d` overrides rs1's class; funct7 values and implementations pairwise distinct |
| RV64A.TableCoversOps | include/insns/RV64A.h:293-305 | every implementation appears in the table |
| RV64A.New | include/insns/RV64A.h:310-316 | the constructor names the extension "RV64A" and installs the table as the standard table |
| RV64A.DispatchReachesTable | include/insns/RV64A.h:294-316 | on the constructed extension, indices 0..10 uncompressed reach the table's handler; any other index is the missing-instruction error |
| ThreadCtx.New | include/RevThreadCtx.h:36-45 | the given PIDs, state Waiting, no children, descriptors [0, 1, 2] |
| ThreadCtx.SetPID | include/RevThreadCtx.h:56-57 | the PID is set and nothing else changes |
| ThreadCtx.SetParentPID | include/RevThreadCtx.h:59-60 | the parent PID is set and nothing else changes |
| ThreadCtx.SetState | include/RevThreadCtx.h:62-63 | the state is set and nothing else changes |
| ThreadCtx.StateTestsExclusive | include/RevThreadCtx.h:68-70 | at most one state test holds, and none does for Sleeping |
| ThreadCtx.SetStateTests | include/RevThreadCtx.h:62-70 | after `SetState(s)` exactly the test named after `s` holds |
| ThreadCtx.SettersOverwrite | include/RevThreadCtx.h:56-63 | setting the current value changes nothing, and the second of two sets wins |
| Tracer.Fields | include/RevTracer.h:98-109 | each field read from the word fits its width |
| Tracer.FieldsWordRoundTrip | include/RevTracer.h:98-109 | the six fields tile the 64-bit word: word to fields to word and fitting fields to word to fields are identities |
| Tracer.DefaultIsQuiet | include/RevTracer.h:99 | the default word 0 has every field 0 |
| Tracer.S2opAreHints | include/RevTracer.h:51-68 | every base word is OP-IMM with rd = rs1 = x0; immediates are 0 except srai's funct7; funct3 2, 3, 1, 5, 5; srai is srli with bit 30; the default is a key |
| Tracer.CmdIdx | include/RevTracer.h:72-80 | every command index is below `NOP_COUNT` |
| Tracer.CmdIdxBijective | include/RevTracer.h:72-80 | the indices 0..4 are one per command, and `NOP_COUNT` is `TRACE_POP + 1` |
| Tracer.NopIsHint | include/RevTracer.h:51-69 | a control word stays a HINT of its base instruction and carries the command in its immediate |
| Tracer.NopsDistinct | include/RevTracer.h:51-80 | different commands give different control words |
| Tracer.EventsDistinguishable | include/RevTracer.h:82-96 | event codes and `event2char` are injective |
| RevMacros.Xori | test/tracer/rev-macros.h:7-11 | the immediate shifted to bit 20 over 0x00004013 is `xori x0, x0, imm`: OP-IMM, funct3 4, rd = rs1 = x0 |
| RevMacros.TraceWord | test/tracer/rev-macros.h:7-11 | a trace macro's immediate is its command's `TRC_CMD_IDX` |
| RevMacros.Expand | test/tracer/rev-macros.h:4-22 | `NOP` is one nop; under `NO_REV_MACROS` the others are empty; a trace macro is its word; `assert` is push-on, a zero word exactly when false, push-off |
| RevMacros.TraceWords | test/tracer/rev-macros.h:7-11 | the five words are 0x00004013 .. 0x00404013 as commented |
| RevMacros.TraceWordsDistinct | test/tracer/rev-macros.h:7-11 | the five trace macros are different instructions |
| RevMacros.MacrosOutsideS2op | test/tracer/rev-macros.h:7-11 | `xori` is not a key of `s2op`, and no macro word is a control word built from `s2op` |
| IsaRef.Sext32 | test/isa/slliw.c:29 | sign extension keeps the low word and copies bit 31 into the upper word |
| IsaRef.SlliZero | test/isa/slli.c:25-37 | `slli` by 0 is the identity |
| IsaRef.SlliLowBits | test/isa/slli.c:25-46 | `slli` by `s` clears the `s` low bits |
| IsaRef.SlliVectors | test/isa/slli.c:25-46 | every arithmetic row of `slli.c` |
| IsaRef.SlliwIsWordSlli | test/isa/slliw.c:25-41 | `slliw` agrees with `slli` on the low word and sign-extends its bit 31 |
| IsaRef.SlliwIgnoresUpperWord | test/isa/slliw.c:43-48 | the source's upper word does not affect `slliw` |
| IsaRef.SlliwVectors | test/isa/slliw.c:25-48 | every arithmetic row of `slliw.c` |
| IsaRef.Signed32 | test/isa/divw.c:25-35 | the low word read as a signed 32-bit value is congruent to the register mod 2^32 |
| IsaRef.TruncDivSpec | test/isa/divw.c:25-28 | division rounds toward zero: the remainder is smaller than the divisor and is zero or has the dividend's sign |
| IsaRef.DivwSpec | test/isa/divw.c:25-35 | the result is a sign-extended word; by zero it is -1; -2^31 / -1 is -2^31; otherwise it is the quotient rounded toward zero |
| IsaRef.DivwSignVectors | test/isa/divw.c:25-28 | 20/6, -20/6, 20/-6 and -20/-6 give 3, -3, -3, 3 |
| IsaRef.DivwOverflowVectors | test/isa/divw.c:30-31 | -2^31 / 1 and -2^31 / -1 both give -2^31 |
| IsaRef.DivwByZeroVectors | test/isa/divw.c:33-35 | division by zero gives -1 |

## Left out

- File I/O in `LoadElf` (`open`, `fstat`, `mmap`, `munmap`): the file contents are a parameter. Their failures are not modelled.
- Verbose logging and the symbol-table printout: they have no effect on state.
- `InitStaticMem`: its body is commented out.
- `RevMem` internals are kept uninterpreted. This covers the LR/SC reservations, AMO arithmetic, `RandCost`'s bounds, `AddMemSeg` overlap handling, `InitHeap`, `FenceMem` and `GetLineSize`. The calls are logged or taken as parameters, and nothing is claimed about store-conditional failure or cost bounds.
- `RevMem.h` is not part of this model. The `RevFlag` bit values are not shown, so a flag word is modelled as the set of flags it holds.
- Host floating-point numerics, including `test/isa/fcvt_w.c`: a handler's FP behaviour is a parameter returning its result and the set of host exceptions it raised. Host rounding constants are the glibc x86-64 values, and `fesetround` rejects any other value.
- RevFenv's deleted copy and move members: they express C++ ownership, not behaviour. The guard's `std::runtime_error` is modelled as the error outcome.
- The tracer's run-time behaviour, rendering and disassembler integration. `RevTracer.cc` is not part of this model.
- Tracer.Nop: the control word is inferred from the encoding column of the comment table above `s2op`, because the code that builds `nops` is not part of this model.
- The `#if 0` block of `include/RevExt.h`.
- `include/PanExec.h`: it holds declarations only.
- The pthread demo and the coprocessor configuration script.
- `RevThreadCtx`'s `AddFD`, `RemoveFD`, `FindFD`, `DuplicateRegFile`, `AddChildPID` and `RemoveChildPID`: they are declared but not defined.
- The register file a `RevThreadCtx` owns. `RV64A.RegFile` holds the part the atomics touch.
- `RevInstEntry` fields other than mnemonic, opcode, funct3, funct7, rs1/rs2 class and implementation. `RevInstTable.h` is not part of this model.
- The execution cost is an unbounded counter, because its width is not shown.
- RevExt.Execute: the declaration at `include/RevExt.h:103` has a different signature from the definition in `src/RevExt.cc`. The definition is modelled, with the register file's `frm` and PC as parameters.
- ElfLoader.LoadElf: the `argv.size() == 0` fatal and the "could not load" fatals are unreachable, because every failure is already fatal inside the passes.
- ElfLoader.WriteZeros: a zero buffer of legal length too large for the host's memory would throw `std::bad_alloc`; host memory is not modelled, so such a fill is written as requested.
- ElfLoader.Zeros: the Elf32 zero fill with `p_memsz < p_filesz` wraps at 2^32 and is written as requested, as the code does; the Elf64 one is the `length_error` outcome when `p_filesz - p_memsz <= 2^63` (always, for a file under 2^63 bytes), and otherwise wraps at 2^64 to a small fill that is written as requested.
- ElfLoader.SymCount: the Elf64 symbol loop (src/RevLoader.cc:408) counts with a 32-bit `unsigned` against the 64-bit `sh_size / sizeof(Elf64_Sym)`. With 2^32 or more symbols (a `.symtab` of at least 96 GiB inside the file), the counter wraps to 0 and the loop never ends. The model reads all `SymCount` symbols and returns, because a non-terminating load has no outcome to model. The Elf32 count is below 2^28 and cannot reach the wrap.
- IsaRef.Slli: characterised by its vectors, the zero shift and the cleared low bits, not by a bit-by-bit statement.
- IsaRef.Divw: registers are read as integers in `0 .. 2^64` rather than as bit-vectors, so the arithmetic stays linear.

## Findings

| source | as written | input that shows it | evidently intended | confidence | as-written member | corrected member |
|---|---|---|---|---|---|---|
| include/RevFenv.h:54-93 | The destructor restores the saved host environment with `fesetenv`, but the thread-local cached rounding mode keeps the mode set inside the guard. A later `SetRoundingMode(m)` whose `m` equals that stale cache skips `fesetround`, so the instruction runs under the restored host mode. | The host is in RNE and the cache is not yet initialised. Two successive guarded executions each request RTZ: the first runs under RTZ, the second under RNE. | Restoring the environment also re-syncs the cached mode (or the cache is invalidated), so every guarded execution runs under the mode it requests. | not executed | RevFenv.StaleCacheSkipsRoundingChange | RevFenv.ResyncedRoundingApplies |
