# A toy ELF-64 static linker, modelled in Dafny

The system is a small x86-64 static linker with two programs:

- `linker.cpp`:
  - parses relocatable ELF-64 object files into a global symbol table (name to `st_value`);
  - runs a symbol-resolution pass;
  - applies the relocation entries of every `SHT_RELA` section to a copy of a file's bytes;
  - combines the sections of several object files by keeping a map from section name to offset and rewriting each later file's `sh_offset` (the first later file's headers are in fact never read; see "Left out").
- `linkerexe.cpp`: a second program with the same parse and resolve passes. Its own relocation loop stores `S + A` for each `R_X86_64_64` entry through a raw pointer. When `e_type` is `ET_DYN`, the pointer is `r_offset + sh_addr`.

This project models those passes and proves what they compute.

The model has one module per concern:

| module | models |
|---|---|
| `Elf` | `Elf64_Shdr`, `Elf64_Sym`, `Elf64_Rela`, the `<elf.h>` field macros, the little-endian reads and writes the C++ does through `memcpy` and `uint64_t *` casts, `uint64_t` wrap-around (`Wrap`), and `std::string`s built from a `char *` into a name table (`CString`) |
| `Maps` | the effect of a run of `m[key] = value` assignments on a `std::map` (`InsertAll`): the last assignment to a key wins |
| `Seqs`, `Steps` | how nested loops line up with one flat run of steps (`Flatten`), and a generic fold of a partial loop body (`Run`) |
| `SymbolTable` | the specification of the symbol loop of `parseObjectFile` |
| `Relocation` | the specification of `performRelocation` in `linker.cpp`, as a partial function on the byte buffer; `None` marks the inputs on which the C++ has undefined behaviour |
| `StaticLinker` | the class `Linker`. It holds the globals `symbolTable` and `sectionNames`. Its methods run the loops of `parseObjectFile`, `resolveSymbolReferences` and `performRelocation`, the last in place on an `array<u8>` |
| `Combine` | the offset map and header rewrite of `combineSections` |
| `LinkerExe` | `performRelocation` of `linkerexe.cpp`, over an address space `map<u64, u64>` |

Each loop of the C++ is a method with loop invariants. Each method is proved equal to a specification function, and the properties are proved as lemmas about those functions:

- the last symbol bearing a name decides its table entry;
- names no symbol bears are untouched;
- relocation preserves the buffer size;
- relocation with an empty table changes nothing;
- the switch's formulas, modulo 2^64;
- the closed form of the section offsets;
- decode after encode gives the value back, for symbols, relocation entries and little-endian words.

`combineSections` does not add the previous section's size to a section's offset, whatever its comment at `linker.cpp:252` says. It reads the offset recorded for the name twice and stores the sum, so every later section bearing a name doubles that name's offset, modulo 2^64. The model follows the code. `Combine.FileOffsets` and `Combine.CombineOffsets` prove the doubling.

## Model

| member | source | states |
|---|---|---|
| Elf.LoadEncodeLE | linker.cpp:117 | reading n little-endian bytes back from wherever an encoding sits in a buffer gives the encoded value |
| Elf.EncodeLoadLE | linker.cpp:146 | encoding the value read from n bytes gives back exactly those bytes |
| Elf.StoreU64 | linker.cpp:153 | a 64-bit store keeps the buffer's length, reads back as the stored word, and changes no byte outside the 8 target bytes |
| Elf.StoreLoadU64 | linker.cpp:145-146 | storing the word that is already at an offset leaves the buffer unchanged |
| Elf.DecodeEncodeSym | linker.cpp:119-120 | an Elf64_Sym copied out of a buffer with memcpy is the symbol whose 24 bytes were laid there |
| Elf.DecodeEncodeRela | linker.cpp:116-117 | an Elf64_Rela copied out of a buffer with memcpy is the entry whose 24 bytes were laid there |
| Elf.RInfo | linker.cpp:120 | ELF64_R_SYM and ELF64_R_TYPE recover the symbol index and the type packed into r_info |
| Elf.RInfoOfFields | linker.cpp:142 | r_info is determined by its symbol index and its type |
| Elf.StBind | linker.cpp:123 | ELF64_ST_BIND yields a 4-bit binding |
| Elf.NulFrom | linker.cpp:54 | finds the first NUL at or after a position, or reports that the table has none |
| Elf.CString | linker.cpp:54 | the std::string built from &table[start] is the run of non-NUL characters from start up to the first NUL, which lies inside the table |
| Maps.InsertAllKeys | linker.cpp:57 | after a run of m[k] = v, the keys are the old keys plus the keys assigned |
| Maps.InsertAllAppend | linker.cpp:44-58 | assigning two runs one after the other is assigning their concatenation |
| Maps.InsertAllLastWins | linker.cpp:57 | a key holds the value of its last assignment in the run |
| Maps.InsertAllUntouched | linker.cpp:57 | a key the run never assigns keeps its presence and its value |
| SymbolTable.SymEntries | linker.cpp:48-50 | the symbol vector holds sh_size / 24 entries, the i-th decoded from file offset sh_offset + 24 * i |
| SymbolTable.SymbolPairs | linker.cpp:52-58 | the i-th assignment of a symbol table is (name of symbol i, its st_value), with the name read at sh_name + st_name of the section-name table |
| SymbolTable.ParseSymbols | linker.cpp:44-60 | parsing a file never removes a name from the table, and a file with no SHT_SYMTAB section leaves the table as it was |
| SymbolTable.ParseUpToStep | linker.cpp:44-60 | a header adds its own assignments after those of the headers before it, and only if it is SHT_SYMTAB |
| SymbolTable.ParseSymbolsLastWins | linker.cpp:44-58 | a name maps to the st_value of the last symbol of the file that bears it, in header order and then table order |
| SymbolTable.ParseSymbolsUntouched | linker.cpp:44-58 | a name no symbol of the file bears keeps its presence and its entry |
| SymbolTable.ParseSymbolsAddsNames | linker.cpp:44-58 | every name a symbol of the file bears is in the table afterwards |
| SymbolTable.ParseSymbolsNoOtherKeys | linker.cpp:44-58 | every new key is the name of some symbol of the file |
| Relocation.Decide | linker.cpp:116-142 | the decision is undefined exactly when the entry's 24 bytes or its symbol's lie outside the buffer, sh_link is outside the headers, or a non-local symbol's name has no NUL inside the name table; a defined entry is skipped exactly when its symbol's binding is STB_LOCAL, tested before its name is built; a not-found entry carries its symbol's name, which is not in the table; an entry that reaches the switch has a non-local symbol whose name is in the table, S is that name's value, and the type, P and A come from the entry |
| Relocation.Patched | linker.cpp:148-160 | only R_X86_64_64 and R_X86_64_PC32 write; the word written is congruent to word + S + A, or to word + S + A - P, modulo 2^64 |
| Relocation.Patch | linker.cpp:145-161 | the switch keeps the buffer's length; it is defined exactly when the entry was not left undefined and, for an applied entry, the 8 target bytes lie inside the buffer; skipped and not-found entries leave the buffer unchanged |
| Relocation.PatchApply | linker.cpp:148-161 | R_X86_64_64 stores word + S + A and R_X86_64_PC32 stores word + S + A - P, both modulo 2^64; any other type changes nothing; no byte outside the target word changes |
| Relocation.RelaStep | linker.cpp:116-161 | one relocation entry never changes the size of the buffer |
| Relocation.DecideEmptyTable | linker.cpp:123-135 | with an empty symbol table, no entry reaches the switch |
| Relocation.RelaStepEmptyTable | linker.cpp:116-161 | with an empty symbol table, a defined entry leaves the buffer unchanged |
| Relocation.RelocateUpToNoRela | linker.cpp:101-103 | only SHT_RELA headers act: without one, every prefix of the pass is defined and leaves the buffer unchanged |
| Relocation.Relocate | linker.cpp:101-168 | the whole pass over the headers; a file with no SHT_RELA section keeps its bytes |
| Relocation.RelocateSectionKeepsLength | linker.cpp:114-162 | relocating the entries of one section keeps the buffer's size |
| Relocation.RelocateKeepsLength | linker.cpp:101-168 | the whole relocation pass keeps the buffer's size |
| Relocation.EmptyTableSectionIdentity | linker.cpp:114-162 | with an empty symbol table, a section's entries leave the buffer unchanged |
| Relocation.EmptyTableIdentity | linker.cpp:101-168 | with an empty symbol table, the whole relocation pass leaves the buffer unchanged |
| StaticLinker.Linker.constructor | linker.cpp:16-17 | both globals start out empty |
| StaticLinker.Linker.ParseObjectFile | linker.cpp:39-60 | sectionNames becomes the file's name table, and the symbol table becomes the old table with every symbol of every SHT_SYMTAB section assigned in order |
| StaticLinker.Linker.AddSymbols | linker.cpp:52-58 | the inner loop assigns each symbol of one table in order and leaves sectionNames alone |
| StaticLinker.Linker.ResolveSymbolReferences | linker.cpp:65-79 | the pass changes neither the symbol table nor sectionNames |
| StaticLinker.Linker.PerformRelocation | linker.cpp:101-168 | the bytes become what the specification of the relocation pass computes from the old bytes, the headers, the name table and the symbol table |
| StaticLinker.Linker.RelocateEntries | linker.cpp:105-162 | the entry loop of one RELA section leaves the bytes its sh_size / 24 entries compute |
| StaticLinker.Linker.ApplyRelocation | linker.cpp:116-161 | one entry: decoded from the current bytes; skipped if its symbol is STB_LOCAL or its name is not in the table; otherwise it patches the target as the switch does |
| StaticLinker.PatchTarget | linker.cpp:145-161 | the switch on the relocation type, applied in place |
| StaticLinker.StoreWord | linker.cpp:153 | the store through uint64_t * writes the 8 little-endian bytes of the word and nothing else |
| Combine.FileUpTo | linker.cpp:246-258 | the loop over a later file's headers keeps the number of headers |
| Combine.CombineUpTo | linker.cpp:228-276 | the loop over the files keeps one header vector per file |
| Combine.CombineSections | linker.cpp:191-258 | the offset map and the per-file headers are what the seeding loop and then the loop over later files compute |
| Combine.CombineFile | linker.cpp:246-258 | the loop over one later file's headers computes the updated map and the rewritten headers |
| Combine.CountZero | linker.cpp:250-254 | the number of qualifying headers bearing a name is 0 exactly when no header seen bears it |
| Combine.SeedLastWins | linker.cpp:219-225 | after the first file's loop, a name holds the sh_offset of its last qualifying header |
| Combine.SeedKeys | linker.cpp:219-225 | every key of the seed is the name of a qualifying header of the first file and holds the sh_offset of one such header |
| Combine.SeedAbsent | linker.cpp:219-225 | a name no qualifying header of the first file bears is absent from the seed |
| Combine.DoubleWrapped | linker.cpp:253-254 | adding a wrapped offset to itself doubles it once more, modulo 2^64 |
| Combine.WrapPow2 | linker.cpp:253-254 | doubling a times and then b times, modulo 2^64, is doubling a + b times |
| Combine.FileOffsets | linker.cpp:246-258 | one later file multiplies a name's offset by 2 to the number of its qualifying headers bearing the name, modulo 2^64; an absent name reads as 0 |
| Combine.FileKeys | linker.cpp:253-257 | after a later file, the map's keys are the old keys plus the names of its qualifying headers |
| Combine.FileHeaders | linker.cpp:248-258 | a qualifying header gets the map's new offset for its name as its sh_offset, and every other field and every other header is kept |
| Combine.CombineOffsets | linker.cpp:219-258 | a name's final offset is its seeded offset (0 if the first file lacks it) times 2 to the number of qualifying headers bearing it across the later files, modulo 2^64 |
| Combine.CombineSkips | linker.cpp:228-233 | a file whose name equals the first file's, the first file included, keeps its headers |
| LinkerExe.RelaEntries | linkerexe.cpp:105-110 | the relocation vector holds sh_size / 24 entries, the i-th decoded from file offset sh_offset + 24 * i |
| LinkerExe.Address | linkerexe.cpp:115 | the store goes to r_offset + sh_addr modulo 2^64 when e_type is ET_DYN, and to r_offset otherwise |
| LinkerExe.EntryWord | linkerexe.cpp:116-121 | the word stored is congruent to S + A modulo 2^64 |
| LinkerExe.ExeRelocate | linkerexe.cpp:101-128 | the relocation pass never removes an address, and a file with no SHT_RELA section leaves the address space as it was |
| LinkerExe.PerformRelocation | linkerexe.cpp:101-129 | the address space becomes the old one with every R_X86_64_64 store of every SHT_RELA section applied in order |
| LinkerExe.ApplyEntries | linkerexe.cpp:113-127 | the loop over one section's entries applies each entry's store in order |
| LinkerExe.EntryRunsStep | linkerexe.cpp:115-126 | an R_X86_64_64 entry sets its address to S + A; any other type changes nothing |
| LinkerExe.ExeUpToStep | linkerexe.cpp:101-110 | a header adds the stores of its entries only if it is SHT_RELA |
| LinkerExe.StoreAt | linkerexe.cpp:113-122 | the store of an R_X86_64_64 entry sits at that entry's position in the run of stores |
| LinkerExe.LocateStore | linkerexe.cpp:113-122 | every store in the run is the store of some R_X86_64_64 entry, at that entry's position |
| LinkerExe.PositionOrder | linkerexe.cpp:101-113 | stores are ordered by header, then by entry |
| LinkerExe.ExeLastWins | linkerexe.cpp:113-122 | an address holds S + A of the last R_X86_64_64 entry that targets it, whatever it held before |
| LinkerExe.ExeUntouched | linkerexe.cpp:113-122 | an address that no R_X86_64_64 entry targets keeps its word, or stays absent |

## Left out

- `main`, the command line, and all file I/O are not modelled, including opening, seeking, reading, writing, closing, and the error messages on `std::cerr`. Object files reach the model as values: bytes, section headers and a section-name table. Reading the ELF header and the section headers is not modelled.
- Undefined behaviour in the C++ becomes a precondition, or a `None` of the relocation specification. This covers an index outside a vector, `sh_link` outside the headers, a name with no NUL inside the name table, and an `sh_size` that is not a multiple of 24, where the read of `sh_size` bytes overflows the vector of `sh_size / 24` entries (`linker.cpp:48-50`, `linkerexe.cpp:108-110`). The model says nothing about those inputs.
- A section read that stops at the end of the file is defined stream behaviour and is not modelled: the unread entries stay zero, and the failbit turns every later `seekg` and `read` of that call into a no-op. `Elf.EntriesReadable` excludes it by requiring `sh_offset + sh_size` to lie inside the file.
- StaticLinker.Linker.PerformRelocation: runs all sections on one buffer. The C++ re-reads the file per `SHT_RELA` section, sized by `tellg()`, and writes it back, so consecutive sections see each other's patches; the model takes that buffer as given. Its size and its relation to the file on disk are not modelled.
- StaticLinker.Linker.ResolveSymbolReferences: visits the keys in an arbitrary order, not in `std::map` key order. The pass assigns each entry its own value, so the order cannot matter.
- Combine.CombineSections: takes every later file's section headers as read (`fileHeaders`). In the C++, `inputFile` is opened at `linker.cpp:209` and not closed before the loop, so the `open` at `linker.cpp:237` fails for the first later file: its ELF header and section headers are never read, and `linker.cpp:241` resizes the first file's header vector to an indeterminate `e_shnum`. The `close` at `linker.cpp:275` that ends that iteration lets the later files open normally. The model does not capture that first iteration.
- Combine.CombineSections: models the offset map and the rewritten section headers only. Copying the ELF header, the name table, headers and section data to the output file (`linker.cpp:181-216` and `linker.cpp:260-271`) is output I/O and is not modelled. The name table and the first file's headers are parameters.
- `writeExecutable` (`linkerexe.cpp`) copies a file and is not modelled.
- LinkerExe.EntryWord: takes S, the symbol value `linkerexe.cpp:116` fetches, as a function of `r_info` supplied by the caller. The key expression on that line is not modelled. Neither is the insertion `operator[]` makes when the key is absent: it also happens for entries that are not `R_X86_64_64`, and it changes the symbol table.
- LinkerExe.PerformRelocation: models the address space the raw-pointer stores write into as a map from address to 64-bit word. Aliasing between overlapping unaligned words and stores into the program's own memory are not modelled.
- `parseObjectFile` and `resolveSymbolReferences` of `linkerexe.cpp` (`linkerexe.cpp:19-79`) repeat those of `linker.cpp` line for line. `StaticLinker.Linker.ParseObjectFile` and `StaticLinker.Linker.ResolveSymbolReferences` model both.
- Host byte order is fixed as little-endian (x86-64). `memcpy` and the `uint64_t *` accesses are modelled as little-endian reads and writes of 8 bytes, with no alignment condition.
