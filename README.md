# ELF parser and page-table entry of kvm-fuzz, in Dafny

This project models two parts of the kvm-fuzz hypervisor and guest kernel.

**The page-table entry** (`page_table.dfy`, module `PageTable`) models the guest kernel's x86-64 paging header:
- the address-split macros: `PTLn_SHIFT`, `PTLn_SIZE`, `PTLn_MASK`, `PTLn_INDEX`, `PAGE_OFFSET`, `PAGE_CEIL`, `IS_PAGE_ALIGNED`, `PHYS_MASK` and `PHYS_FLAGS`;
- the `PageTableEntry` class. It holds one 64-bit word with a frame-address field (bits 12..51) and flag bits.

Entries are `bv64` words, so every mask, shift and wrap-around is the C one.

**The hypervisor's `ElfParser`** is split into five modules:
- `elf_format.dfy` (`ElfFormat`): 64-bit unsigned arithmetic with explicit wrap-around, little-endian field decoding, NUL-terminated strings, and the ELF64 records: header, program header, section header and symbol.
- `elf_image.dfy` (`ElfImage`): what `init` reads out of an image, stated as values:
  - the segment and section tables;
  - the load address, initial brk and interpreter accumulators;
  - the symbols of the `SHT_SYMTAB`/`SHT_DYNSYM` sections;
  - the header checks;
  - relocation of a PIE image;
  - the first-match lookups `section_limits`, `symbol_limits` and `addr_to_symbol`.
- `ldd.dfy` (`Ldd`): cutting the output of `ldd` into lines, and reading a dependency out of a line as `std::string::find` and `substr` do.
- `stacktrace.dfy` (`Unwind`):
  - the DWARF register file filled from `kvm_regs`;
  - the single-image stack walk, which stops at the frame limit, when the unwinder finds no caller, or when the caller leaves `.text`;
  - `elf_with_addr_in_text`;
  - the stack walk over several loaded images.
- `elf_parser.dfy` (`Elf`): the `ElfParser` class with its fields. Each method is proved against the value-level definitions above:
  - `Init`, with its segment, section, symbol and ldd loops;
  - `SetLoadAddr`, `SectionLimits`, `SymbolLimits` and `AddrToSymbol`;
  - the two `get_stacktrace` walks, over a register array.

The DWARF call-frame step (`ElfDebug::next_frame`) is an unknown function, passed as a parameter. It maps the image bytes and a register file to the caller's register file, or to nothing. The output of `ldd` is a string parameter of `Init`. A fatal `ASSERT` in the source becomes a `Fatal(error)` result.

A few points where the model follows the code as written:
- `kvm_to_dwarf_regs` fills the `Rcx` slot from `kregs.rdx` (hypervisor/src/elf_parser.cpp:269). `DwarfRegsOf` keeps this, and `DwarfRegsIgnoreRcx` states the consequence: the guest's `rcx` never reaches the unwinder.
- The vDSO line of `ldd` (`linux-vdso.so.1 =>  (0x...)`) has no resolved path. Even so, the code finds a space right after `"=> "` and pushes an empty dependency rather than skipping the line. The model follows the code (`VdsoLine`).
- `PAGE_SIZE` in hypervisor/src/elf_parser.cpp is taken to be 0x1000, as in kernel/src/x86/page_table.h.
- DWARF register numbers follow the x86-64 System V psABI: rax 0, rdx 1, rcx 2, …, return address 16, 17 slots in all. elf_debug.h is not part of this model.

## Model

| member | source | states |
|---|---|---|
| PageTable.Shift | kernel/src/x86/page_table.h:7-28 | Defines PTLn_SHIFT: 39, 30, 21 and 12 for levels 4 to 1; MacroConstants and IndicesReassemble are about it. |
| PageTable.Size | kernel/src/x86/page_table.h:9-30 | Defines PTLn_SIZE as 1 << PTLn_SHIFT; MacroConstants fixes PTL1_SIZE at 0x1000. |
| PageTable.Mask | kernel/src/x86/page_table.h:10-31 | Defines PTLn_MASK as ~(PTLn_SIZE - 1); MacroConstants fixes PTL1_MASK at ~0xFFF. |
| PageTable.IsPageAligned | kernel/src/x86/page_table.h:38 | Defines IS_PAGE_ALIGNED as `(addr & PTL1_MASK) == addr`; PageCeil and PageCeilOfAligned are stated with it. |
| PageTable.FrameOf | kernel/src/x86/page_table.h:60-62 | Defines frame_base() of a word as the word masked with PHYS_MASK; FieldsFit and FieldsJoin relate it to the flag part. |
| PageTable.PhysFlags | kernel/src/x86/page_table.h:41 | Defines PHYS_FLAGS as the word masked with ~PHYS_MASK; FieldsFit and FieldsJoin relate it to the frame part. |
| PageTable.WithFrameBase | kernel/src/x86/page_table.h:64-68 | Defines the word after set_frame_base: frame bits cleared, then base ORed in; WithFrameBaseSetsFrame and WithFrameBaseKeepsFlags state its effect. |
| PageTable.WithFlags | kernel/src/x86/page_table.h:70-75 | Defines the word after set_flags: flag bits cleared, then flags ORed in; WithFlagsSetsFlags and WithFlagsKeepsFrame state its effect. |
| PageTable.WithBit | kernel/src/x86/page_table.h:99-104 | Defines the word after set_bit: OR for true, AND with the complement for false; WithBitChangesOnlyBit states its effect. |
| PageTable.Bit | kernel/src/x86/page_table.h:45-54 | Defines the bit of each Flags enumerator; BitPositions and FlagOutsidePhysMask are about it. |
| PageTable.PageTableEntry.FrameBase | kernel/src/x86/page_table.h:60-62 | frame_base(): the frame part of the entry word; Raw and the setters' contracts are stated with it. |
| PageTable.PageTableEntry.IsPresent | kernel/src/x86/page_table.h:79 | is_present(): the Present bit is set; SetPresent and Clear are stated with it. |
| PageTable.PageTableEntry.IsWritable | kernel/src/x86/page_table.h:82 | is_writable(): the ReadWrite bit is set; SetWritable and Clear are stated with it. |
| PageTable.PageTableEntry.IsUser | kernel/src/x86/page_table.h:85 | is_user(): the User bit is set; SetUser and Clear are stated with it. |
| PageTable.PageTableEntry.IsHuge | kernel/src/x86/page_table.h:88 | is_huge(): the Huge bit is set; SetHuge and Clear are stated with it. |
| PageTable.PageTableEntry.IsGlobal | kernel/src/x86/page_table.h:91 | is_global(): the Global bit is set; SetGlobal and Clear are stated with it. |
| PageTable.PageTableEntry.IsExecuteDisabled | kernel/src/x86/page_table.h:94 | is_execute_disabled(): the NoExecute bit is set; SetExecuteDisabled and Clear are stated with it. |
| PageTable.MacroConstants | kernel/src/x86/page_table.h:7-35 | Fixes the macros' values: PTRS_PER_PTLn is 512, PTL1_SIZE is PAGE_SIZE = 0x1000, and PTL1_MASK is ~0xFFF. |
| PageTable.Index | kernel/src/x86/page_table.h:12 | PTLn_INDEX(addr) is a slot of a 512-entry table. |
| PageTable.IndicesReassemble | kernel/src/x86/page_table.h:7-36 | The four PTLn_INDEX fields and PAGE_OFFSET reassemble every address below 2^48. |
| PageTable.PageOffset | kernel/src/x86/page_table.h:36 | PAGE_OFFSET is below PAGE_SIZE. |
| PageTable.PageOffsetSplits | kernel/src/x86/page_table.h:36 | The page part plus PAGE_OFFSET is the address again. |
| PageTable.PageCeil | kernel/src/x86/page_table.h:37 | PAGE_CEIL is page-aligned in the sense of IS_PAGE_ALIGNED. |
| PageTable.PageCeilOfAligned | kernel/src/x86/page_table.h:37-38 | PAGE_CEIL leaves an aligned address alone. |
| PageTable.PageCeilOfUnaligned | kernel/src/x86/page_table.h:37 | PAGE_CEIL moves an unaligned address to the start of the next page. |
| PageTable.PageCeilBounds | kernel/src/x86/page_table.h:37 | Without overflow, PAGE_CEIL(addr) lies in [addr, addr + PAGE_SIZE). |
| PageTable.PageCeilWraps | kernel/src/x86/page_table.h:37 | In the last page, the C sum wraps and PAGE_CEIL is 0. |
| PageTable.PhysMaskConstants | kernel/src/x86/page_table.h:40-41 | PHYS_MASK is bits 12..51, and ~PHYS_MASK is the flag part. |
| PageTable.FieldsFit | kernel/src/x86/page_table.h:40-41 | frame_base() has bits only inside PHYS_MASK, and PHYS_FLAGS only outside it. |
| PageTable.FieldsJoin | kernel/src/x86/page_table.h:60-62 | frame_base() and PHYS_FLAGS together make up the whole word. |
| PageTable.WithFrameBaseSetsFrame | kernel/src/x86/page_table.h:64-68 | After set_frame_base(base), frame_base() reads back base. |
| PageTable.WithFrameBaseKeepsFlags | kernel/src/x86/page_table.h:64-68 | set_frame_base leaves every flag bit as it was. |
| PageTable.WithFlagsSetsFlags | kernel/src/x86/page_table.h:70-75 | After set_flags(flags), the flag bits read back flags. |
| PageTable.WithFlagsKeepsFrame | kernel/src/x86/page_table.h:70-75 | set_flags leaves frame_base() as it was. |
| PageTable.FlagsAfterFrameBase | kernel/src/x86/page_table.h:64-75 | set_frame_base followed by set_flags gives base OR flags. |
| PageTable.FrameBaseAfterFlags | kernel/src/x86/page_table.h:64-75 | set_flags followed by set_frame_base gives base OR flags. |
| PageTable.FrameBaseAndFlagsCommute | kernel/src/x86/page_table.h:64-75 | The two setters commute, and whatever the entry held before is overwritten. |
| PageTable.SetBitsTurnsOn | kernel/src/x86/page_table.h:99-101 | Setting the bit (`m_raw` OR bit) turns it on. |
| PageTable.ClearBitsTurnsOff | kernel/src/x86/page_table.h:102-103 | `m_raw &= ~bit` turns the bit off. |
| PageTable.WithBitChangesOnlyBit | kernel/src/x86/page_table.h:99-104 | After set_bit(bit, value), the bit reads back value and every other bit is unchanged. |
| PageTable.BitPositions | kernel/src/x86/page_table.h:45-54 | Fixes the Flags enum: bits 0, 1, 2, 5, 6, 7, 8 and 63. |
| PageTable.FlagOutsidePhysMask | kernel/src/x86/page_table.h:45-54 | Every flag bit is non-zero and lies outside PHYS_MASK. |
| PageTable.FlagWrite | kernel/src/x86/page_table.h:79-104 | A flag setter makes its getter read back the value, leaves every other bit alone, and never moves the frame address. |
| PageTable.ZeroWordIsEmpty | kernel/src/x86/page_table.h:77 | The zero word has no flag set and no frame address. |
| PageTable.PageTableEntry.Raw | kernel/src/x86/page_table.h:56-58 | raw() is frame_base() joined with the flag bits. |
| PageTable.PageTableEntry.SetFrameBase | kernel/src/x86/page_table.h:64-68 | Rejects a base with bits outside PHYS_MASK and leaves the word untouched. Otherwise it sets frame_base() to base and keeps the flags. |
| PageTable.PageTableEntry.SetFlags | kernel/src/x86/page_table.h:70-75 | Rejects flags with bits inside PHYS_MASK and leaves the word untouched. Otherwise it sets the flags and keeps frame_base(). |
| PageTable.PageTableEntry.Clear | kernel/src/x86/page_table.h:77 | The word is 0: no frame address and every is_* getter false. |
| PageTable.PageTableEntry.SetPresent | kernel/src/x86/page_table.h:79-80 | is_present() reads back b; nothing outside the Present bit changes, and frame_base() is kept. |
| PageTable.PageTableEntry.SetWritable | kernel/src/x86/page_table.h:82-83 | is_writable() reads back b; nothing outside the ReadWrite bit changes, and frame_base() is kept. |
| PageTable.PageTableEntry.SetUser | kernel/src/x86/page_table.h:85-86 | is_user() reads back b; nothing outside the User bit changes, and frame_base() is kept. |
| PageTable.PageTableEntry.SetHuge | kernel/src/x86/page_table.h:88-89 | is_huge() reads back b; nothing outside the Huge bit changes, and frame_base() is kept. |
| PageTable.PageTableEntry.SetGlobal | kernel/src/x86/page_table.h:91-92 | is_global() reads back b; nothing outside the Global bit changes, and frame_base() is kept. |
| PageTable.PageTableEntry.SetExecuteDisabled | kernel/src/x86/page_table.h:94-95 | is_execute_disabled() reads back b; nothing outside the NoExecute bit changes, and frame_base() is kept. |
| PageTable.PageTableEntry.SetBit | kernel/src/x86/page_table.h:99-104 | The word is the old word with the bit set (value true) or cleared (value false), as set_bit does. |
| ElfFormat.Add64 | hypervisor/src/elf_parser.cpp:173-184 | Defines `+=` on vaddr_t: the sum, less 2^64 when it carries; Wrapping64, AddSub64 and Add64Assoc are about it. |
| ElfFormat.Sub64 | hypervisor/src/elf_parser.cpp:169 | Defines `-` on vaddr_t: the difference, plus 2^64 when it borrows; Wrapping64, AddSub64 and Deltas64Chain are about it. |
| ElfFormat.CString | hypervisor/src/elf_parser.cpp:88 | Defines `string((char*)p)` on the image: the bytes up to the first NUL or the end of the buffer; CStringStopsAtNul states this. |
| ElfFormat.HeaderOf | hypervisor/src/elf_parser.cpp:43-52 | Defines the Elf64_Ehdr fields init reads, at their gABI offsets, decoded little-endian by ReadLE. |
| ElfFormat.SegmentAt | hypervisor/src/elf_parser.cpp:67-77 | Defines segment_t from the Elf64_Phdr at a byte offset, field by field. |
| ElfFormat.SectionAt | hypervisor/src/elf_parser.cpp:99-111 | Defines section_t from the Elf64_Shdr at a byte offset, named from the section-name string table. |
| ElfFormat.SymbolAt | hypervisor/src/elf_parser.cpp:128-136 | Defines symbol_t from the Elf64_Sym at a byte offset, named from the linked string table. |
| ElfFormat.StType | hypervisor/src/elf_parser.cpp:130 | Defines ELF_ST_TYPE, the low nibble of st_info; StInfoRoundTrip is about it. |
| ElfFormat.StBind | hypervisor/src/elf_parser.cpp:131 | Defines ELF_ST_BIND, the high nibble of st_info; StInfoRoundTrip is about it. |
| ElfFormat.StVisibility | hypervisor/src/elf_parser.cpp:132 | Defines ELF_ST_VISIBILITY, the low two bits of st_other. |
| ElfFormat.Wrapping64 | hypervisor/src/elf_parser.cpp:169-184 | vaddr_t addition and subtraction are arithmetic modulo 2^64. |
| ElfFormat.AddSub64 | hypervisor/src/elf_parser.cpp:169-184 | Adding and then subtracting a delta gives the value back (and the other way round), whatever wraps. |
| ElfFormat.Add64Assoc | hypervisor/src/elf_parser.cpp:173-184 | Adding two deltas in turn is adding their wrapped sum. |
| ElfFormat.Deltas64Chain | hypervisor/src/elf_parser.cpp:169 | The delta from l to a plus the delta from a to b is the delta from l to b. |
| ElfFormat.ReadLE | hypervisor/src/elf_parser.cpp:43-52 | An n-byte field decodes to a value below 256^n. |
| ElfFormat.ReadEncoded | hypervisor/src/elf_parser.cpp:43-52 | Decoding the little-endian bytes of x gives x. |
| ElfFormat.EncodeRead | hypervisor/src/elf_parser.cpp:43-52 | Encoding a decoded field gives its bytes back, so the field layout is one-to-one. |
| ElfFormat.CStringStopsAtNul | hypervisor/src/elf_parser.cpp:88-129 | `string((char*)p)` holds the bytes up to the first NUL, none of them NUL, and stops at a NUL or at the end of the buffer. |
| ElfFormat.StInfoRoundTrip | hypervisor/src/elf_parser.cpp:130-131 | ELF_ST_TYPE and ELF_ST_BIND split st_info into two nibbles that rebuild it, and splitting a joined pair gives the pair back. |
| ElfImage.PageCeil | hypervisor/src/elf_parser.cpp:9 | Defines PAGE_CEIL on a 64-bit address: the wrapped sum with 0xFFF, low twelve bits cleared; PageCeilAligned, PageCeilBounds and PageCeilWraps are about it. |
| ElfImage.NextPage | hypervisor/src/elf_parser.cpp:83 | Defines `PAGE_CEIL(vaddr + memsize)` with the sum wrapping; InitialBrkIsHighest is stated with it. |
| ElfImage.SegmentTable | hypervisor/src/elf_parser.cpp:66-78 | Defines the e_phnum program headers at e_phoff, in table order; SegmentTableGrows and Elf.ElfParser.ReadSegments are about it. |
| ElfImage.LoadAddrOf | hypervisor/src/elf_parser.cpp:63-85 | Defines m_load_addr after the segment loop; LoadAddrIsLowest proves it is the lowest PT_LOAD vaddr. |
| ElfImage.InitialBrkOf | hypervisor/src/elf_parser.cpp:64-84 | Defines m_initial_brk after the segment loop; InitialBrkIsHighest proves it is the highest PT_LOAD next page. |
| ElfImage.InterpreterOf | hypervisor/src/elf_parser.cpp:87-88 | Defines m_interpreter after the segment loop; InterpreterIsLast and InterpreterWithoutInterp are about it. |
| ElfImage.Verdict | hypervisor/src/elf_parser.cpp:55-93 | Defines the outcome of init's four ASSERTs, in order; AcceptedImages and RejectedOnHeader characterise it. |
| ElfImage.RejectedOnHeader | hypervisor/src/elf_parser.cpp:55-60 | An image failing the class, machine or type check is rejected with the first failed check's error, whatever its program headers and the rest of the buffer hold; only the ELF header must lie in the buffer. |
| ElfImage.NameTableOffset | hypervisor/src/elf_parser.cpp:96-97 | Defines the offset of the section-name string table, sh_offset of section e_shstrndx. |
| ElfImage.Sections | hypervisor/src/elf_parser.cpp:96-113 | Defines the e_shnum section headers, named from section e_shstrndx; SectionTableGrows and Elf.ElfParser.ReadSections are about it. |
| ElfImage.SymbolsIn | hypervisor/src/elf_parser.cpp:118-138 | Defines the symbols one section contributes: none unless SHT_SYMTAB or SHT_DYNSYM; SymbolsInEntries states them. |
| ElfImage.SymbolsOf | hypervisor/src/elf_parser.cpp:116-139 | Defines m_symbols after the symbol loop over the first n sections; SymbolsLength, SymbolsGrow and SymbolsPlacement are about it. |
| ElfImage.Relocate | hypervisor/src/elf_parser.cpp:166-185 | Defines the state after set_load_addr: every address moved by the wrapping delta; the Relocate* lemmas are about it. |
| ElfImage.SectionLimitsOf | hypervisor/src/elf_parser.cpp:231-236 | Defines section_limits over a section list; SectionLimitsFirstMatch characterises it. |
| ElfImage.SymbolLimitsOf | hypervisor/src/elf_parser.cpp:238-243 | Defines symbol_limits over a symbol list; SymbolLimitsFirstMatch characterises it. |
| ElfImage.SymbolCovering | hypervisor/src/elf_parser.cpp:249-257 | Defines addr_to_symbol over a symbol list; SymbolCoveringFirstMatch characterises it. |
| ElfImage.FirstMatchSpec | hypervisor/src/elf_parser.cpp:231-257 | A first-match scan finds a matching element with none before it. It finds nothing exactly when no element matches. |
| ElfImage.PageCeilAligned | hypervisor/src/elf_parser.cpp:9 | PAGE_CEIL on vaddr_t always lands on a page boundary. |
| ElfImage.PageCeilBounds | hypervisor/src/elf_parser.cpp:9 | Without overflow, PAGE_CEIL(addr) lies in [addr, addr + PAGE_SIZE) and keeps an aligned address. |
| ElfImage.PageCeilWraps | hypervisor/src/elf_parser.cpp:9 | When addr + PAGE_SIZE - 1 overflows, PAGE_CEIL is 0. |
| ElfImage.SegmentTableGrows | hypervisor/src/elf_parser.cpp:66-78 | Reading program header i appends it to the segments read so far. |
| ElfImage.SegmentStep | hypervisor/src/elf_parser.cpp:80-88 | One more segment updates the load address (min), the brk (max over PAGE_CEIL of the end) and the interpreter, exactly as the loop body does. |
| ElfImage.LoadAddrIsLowest | hypervisor/src/elf_parser.cpp:63-85 | The load address is at most every PT_LOAD vaddr and equals one of them. It is the u64 maximum when there is no PT_LOAD. |
| ElfImage.InitialBrkIsHighest | hypervisor/src/elf_parser.cpp:64-84 | The initial brk is at least every PT_LOAD segment's next page and equals one of them. It is 0 when there is no PT_LOAD. |
| ElfImage.InterpreterWithoutInterp | hypervisor/src/elf_parser.cpp:87-88 | Without a PT_INTERP segment, the interpreter stays empty. |
| ElfImage.InterpreterIsLast | hypervisor/src/elf_parser.cpp:87-88 | The interpreter is the string at the last PT_INTERP segment's offset. |
| ElfImage.AcceptedImages | hypervisor/src/elf_parser.cpp:55-93 | An image passes init's checks exactly when it is ELFCLASS64, EM_X86_64, and ET_EXEC or ET_DYN, and, when it is ET_DYN, some PT_LOAD starts at 0. It needs only the ELF header in the buffer, plus the program headers when the header checks pass. |
| ElfImage.SectionTableGrows | hypervisor/src/elf_parser.cpp:98-113 | Reading section header i appends it, named from section e_shstrndx. |
| ElfImage.SymbolsLength | hypervisor/src/elf_parser.cpp:116-139 | The number of symbols is the sum of size / sizeof(Elf_Sym) over the symbol sections. |
| ElfImage.SymbolsGrow | hypervisor/src/elf_parser.cpp:116-139 | Scanning more sections only appends symbols. |
| ElfImage.SymbolsPlacement | hypervisor/src/elf_parser.cpp:116-139 | A section's entries follow those of the sections before it, in section order. |
| ElfImage.SymbolsInEntries | hypervisor/src/elf_parser.cpp:118-138 | A SHT_SYMTAB or SHT_DYNSYM section contributes its size / 24 entries, in order, each named from the string table its sh_link names. |
| ElfImage.RelocateKeepsRelativeAddresses | hypervisor/src/elf_parser.cpp:166-185 | set_load_addr moves no address relative to the load address, and keeps every name, size, type and table length. |
| ElfImage.RelocateTwice | hypervisor/src/elf_parser.cpp:166-185 | Relocating to a and then to b is relocating straight to b. |
| ElfImage.RelocateInPlace | hypervisor/src/elf_parser.cpp:166-185 | Relocating to the current load address changes nothing. |
| ElfImage.RelocateBack | hypervisor/src/elf_parser.cpp:166-185 | Relocating back to the old load address undoes a relocation. |
| ElfImage.SectionLimitsFirstMatch | hypervisor/src/elf_parser.cpp:231-236 | section_limits is fatal with "not found" exactly when no section has the name. Otherwise it spans the first such section, [addr, addr + size). |
| ElfImage.SymbolLimitsFirstMatch | hypervisor/src/elf_parser.cpp:238-243 | symbol_limits is fatal with "not found" exactly when no symbol has the name. Otherwise it spans the first such symbol, [value, value + size). |
| ElfImage.SymbolCoveringFirstMatch | hypervisor/src/elf_parser.cpp:249-257 | addr_to_symbol finds nothing exactly when no symbol covers addr. Otherwise it returns the first symbol that does. |
| Ldd.SplitString | hypervisor/src/elf_parser.cpp:143 | Cuts the ldd output at each newline, keeping empty pieces; there is always at least one piece. |
| Ldd.Find | hypervisor/src/elf_parser.cpp:145 | Defines `std::string::find`; the result, when found, lies at or after the start and the pattern fits; FindFirst and FindChar characterise it. |
| Ldd.DependencyOf | hypervisor/src/elf_parser.cpp:145-152 | Defines the dependency one line yields: the text from after the first "=> " to the next space; DependencyWhenArrowThenSpace and DependencyBetweenArrowAndSpace characterise it. |
| Ldd.DependenciesOf | hypervisor/src/elf_parser.cpp:144-153 | Defines m_dependencies for a list of lines; DependenciesStep, DependenciesAppend and DependenciesAtMostLines are about it. |
| Ldd.SplitStringPieces | hypervisor/src/elf_parser.cpp:143 | No line holds a newline, and there is one line more than there are newlines. |
| Ldd.JoinSplit | hypervisor/src/elf_parser.cpp:143 | Joining the lines with newlines gives the ldd output back. |
| Ldd.FindFirst | hypervisor/src/elf_parser.cpp:145-150 | `find` returns the first occurrence at or after the start, and npos exactly when there is none. |
| Ldd.FindChar | hypervisor/src/elf_parser.cpp:149-150 | `find(" ", pos1)` returns a space with no space between pos1 and it, and npos when none follows pos1. |
| Ldd.DependencyWhenArrowThenSpace | hypervisor/src/elf_parser.cpp:144-153 | A line yields a dependency exactly when it has "=> " with a space somewhere after it. |
| Ldd.DependencyBetweenArrowAndSpace | hypervisor/src/elf_parser.cpp:145-152 | The dependency starts right after the first "=> ", holds no space, and is followed by one. |
| Ldd.ResolvedLibrary | hypervisor/src/elf_parser.cpp:144-153 | A `name => path (addr)` line yields the path. |
| Ldd.VdsoLine | hypervisor/src/elf_parser.cpp:144-153 | A `name =>  (addr)` line yields the empty string, not nothing. |
| Ldd.LoaderLine | hypervisor/src/elf_parser.cpp:145-147 | A line without "=> " yields nothing. |
| Ldd.DependenciesStep | hypervisor/src/elf_parser.cpp:144-153 | One more line adds its dependency, if it has one. |
| Ldd.DependenciesAppend | hypervisor/src/elf_parser.cpp:144-153 | Dependencies keep line order: the dependencies of a + b are those of a followed by those of b. |
| Ldd.DependenciesAtMostLines | hypervisor/src/elf_parser.cpp:144-153 | There are never more dependencies than lines. |
| Unwind.DwarfRegsOf | hypervisor/src/elf_parser.cpp:266-284 | Defines the DWARF register file kvm_to_dwarf_regs builds, slot by slot as written; DwarfRegsIgnoreRcx is about it. |
| Unwind.Handed | hypervisor/src/elf_parser.cpp:307-308 | Defines the registers handed to next_frame: the return address less the load address for ET_DYN; HandedIsRelative is about it. |
| Unwind.Walk | hypervisor/src/elf_parser.cpp:286-317 | Defines the addresses the single-image walk records; WalkUnfold, WalkBounds and WalkSteps are about it. |
| Unwind.ImageWithAddr | hypervisor/src/elf_parser.cpp:319-326 | Defines elf_with_addr_in_text over image indices; a found index is in range, and ImageWithAddrIsFirst characterises it. |
| Unwind.MultiWalk | hypervisor/src/elf_parser.cpp:328-355 | Defines the pairs the multi-image walk records; MultiWalkFails, MultiWalkEnds, MultiWalkRecords and MultiWalkBounds are about it. |
| Unwind.DwarfRegsIgnoreRcx | hypervisor/src/elf_parser.cpp:266-284 | rip lands in the return-address slot and rsp and rbp in theirs. The Rcx slot holds rdx, so the result does not depend on rcx or rflags. |
| Unwind.HandedIsRelative | hypervisor/src/elf_parser.cpp:298-308 | For a PIE image the unwinder gets the return address minus the load address, and adding the load address back gives the recorded address. No other register changes. |
| Unwind.WalkUnfold | hypervisor/src/elf_parser.cpp:305-314 | One step of the walk records the current address and goes on only if frames remain, a caller is found, and it lies in .text. |
| Unwind.WalkAdvance | hypervisor/src/elf_parser.cpp:305-314 | Recording the current address either completes the walk or leaves the caller's walk to record. |
| Unwind.WalkBounds | hypervisor/src/elf_parser.cpp:286-317 | The walk records the starting address first and at most max(1, num_frames) addresses. Every later address lies in .text. |
| Unwind.WalkSteps | hypervisor/src/elf_parser.cpp:305-314 | Each recorded address is the caller the unwinder produced from a register file holding the address before it. |
| Unwind.ImageWithAddrIsFirst | hypervisor/src/elf_parser.cpp:319-326 | elf_with_addr_in_text returns the first image whose .text holds the address, and null exactly when none does. |
| Unwind.MultiWalkFails | hypervisor/src/elf_parser.cpp:343 | A fatal .text lookup ends the multi-image walk with that error. |
| Unwind.MultiWalkEnds | hypervisor/src/elf_parser.cpp:343-345 | An address no image holds ends the walk with the frames already recorded. |
| Unwind.MultiWalkRecords | hypervisor/src/elf_parser.cpp:346-352 | An address image k holds is recorded with k. The walk then stops, or goes on from the caller that image's unwinder gives. |
| Unwind.MultiWalkBounds | hypervisor/src/elf_parser.cpp:328-355 | Every recorded pair names the first image holding its address, and at most max(1, num_frames) pairs are recorded. Nothing is recorded when no image holds the starting address. |
| Elf.ElfParser.constructor | hypervisor/src/elf_parser.cpp:32-38 | Keeps path and data, sets the size to the buffer length, and starts with empty tables. |
| Elf.ElfParser.Init | hypervisor/src/elf_parser.cpp:40-156 | Needs only the reads the source makes before each check. Always records phinfo, type and entry. The outcome is the header and PIE checks' verdict. On success the segments, load address, brk, interpreter, sections, symbols and dependencies are the value-level tables of the image and of the ldd output. |
| Elf.ElfParser.ReadSegments | hypervisor/src/elf_parser.cpp:63-89 | The segments are the e_phnum program headers, with load address, initial brk and interpreter accumulated over them. |
| Elf.ElfParser.ReadSegment | hypervisor/src/elf_parser.cpp:67-78 | Program header i extends the table read so far. |
| Elf.ElfParser.ReadSections | hypervisor/src/elf_parser.cpp:95-113 | The sections are the e_shnum section headers, named from section e_shstrndx. |
| Elf.ElfParser.ReadSymbols | hypervisor/src/elf_parser.cpp:115-139 | The symbols are those of every symbol section, in section order. |
| Elf.ElfParser.ReadSymbolTable | hypervisor/src/elf_parser.cpp:121-138 | Appends one symbol section's entries. |
| Elf.ElfParser.ReadDependencies | hypervisor/src/elf_parser.cpp:141-153 | The dependencies are those of the ldd output's lines, in order. |
| Elf.ElfParser.SetLoadAddr | hypervisor/src/elf_parser.cpp:166-185 | Fatal, changing nothing, exactly when the image is not ET_DYN. Otherwise every virtual address is relocated to the new load address. |
| Elf.ElfParser.SectionLimits | hypervisor/src/elf_parser.cpp:231-236 | The result is the first-match section lookup. |
| Elf.ElfParser.SymbolLimits | hypervisor/src/elf_parser.cpp:238-243 | The result is the first-match symbol lookup. |
| Elf.ElfParser.AddrToSymbol | hypervisor/src/elf_parser.cpp:249-257 | The result is the first symbol covering the address. |
| Elf.ElfParser.DebugAddress | hypervisor/src/elf_parser.cpp:259-264 | For ET_DYN the address becomes relative to the load address, and adding the load address back restores it. Other images pass it unchanged. |
| Elf.ElfParser.GetStacktrace | hypervisor/src/elf_parser.cpp:286-317 | Fatal exactly when the image has no .text. Otherwise the result is the single-image walk from the guest's registers. |
| Elf.KvmToDwarfRegs | hypervisor/src/elf_parser.cpp:266-284 | The register array holds the DWARF register file of kvm_regs. |
| Elf.WalkFrames | hypervisor/src/elf_parser.cpp:304-316 | The do-while loop records exactly the single-image walk. |
| Elf.ElfWithAddrInText | hypervisor/src/elf_parser.cpp:319-326 | Returns the image the index-level lookup finds, null when it finds none, and the lookup's error when a .text lookup is fatal. |
| Elf.GetStacktraceOverImages | hypervisor/src/elf_parser.cpp:328-355 | The result is the multi-image walk from the guest's registers, with each image index replaced by its image. |
| Elf.WalkImages | hypervisor/src/elf_parser.cpp:340-354 | The do-while loop records exactly the multi-image walk. |
| Elf.HandOn | hypervisor/src/elf_parser.cpp:347-351 | The walk goes on exactly when frames remain and the image's unwinder finds a caller from the relative registers, whose registers it then holds. |

## Left out

- Opening and mapping a file (hypervisor/src/elf_parser.cpp:13-30) is I/O. The model builds a parser over bytes already in memory, the buffer constructor.
- The constructor's call to `init` is a separate `Init` call, because a Dafny constructor cannot return the check's outcome. `Init` requires the empty tables that the constructor leaves.
- `m_size` is the buffer's length; the model has no separate size argument.
- `exec_cmd("ldd ...")` runs a process. Its output is the `lddOutput` parameter of `Init`.
- utils.h `split_string` is not part of this model. It is modelled for a one-character delimiter, with empty pieces kept.
- `ElfDebug` (construction, `next_frame`, `addr_to_source`'s line lookup, `has_dwarf`) and the `Mmu` are not part of this model. The unwinder is an unknown function of the image bytes and the registers. Guest memory is taken as fixed during one walk.
- `DebugAddress` models only the address adjustment of `addr_to_source`; the source string it produces comes from `ElfDebug`.
- Reads outside the buffer are undefined behaviour in the source, so `Init` excludes them, stage by stage, as the source reaches them:
  - the ELF header always lies inside the buffer;
  - the program headers do once the class, machine and type checks pass (`CheckedReadable`);
  - the section headers and every symbol table do once the image is accepted (`Verdict(data).Ok? ==> Readable(data)`).
  An image rejected by a header check needs nothing beyond its 64-byte header (`RejectedOnHeader`). String reads stop at the end of the buffer.
- The `data` pointers of segments and sections are kept as their `offset` into the image.
- The trivial accessors (hypervisor/src/elf_parser.cpp:158-229) are the class's fields.
- The commented-out `relocations()` accessor has no code to model.
- kernel/src/syscalls/stat.cpp is syscall code of the guest kernel over its file manager and file-descriptor table. It lies outside the modelled parser and page-table entry, and it is not modelled.
- Only ELF64 on x86-64 is modelled (`ELFCLASS64`, `EM_X86_64`); the source selects these at compile time.
