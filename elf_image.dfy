// What the hypervisor's ELF parser reads out of an image, stated as values:
// the program-header and section-header tables, the load-address and
// initial-brk accumulators, the symbol tables, relocation of a PIE image and
// the first-match lookups by name and by address.

module ElfImage {
  import opened ElfFormat

  // ---------------------------------------------------------------------
  // First-match scans
  // ---------------------------------------------------------------------

  /** The index of the first element of `s` that satisfies `p`, if any. */
  function FirstMatch<T>(s: seq<T>, p: T -> bool): (r: Option<nat>)
    ensures r.Some? ==> r.value < |s|
  {
    if s == [] then None
    else if p(s[0]) then Some(0)
    else match FirstMatch(s[1..], p)
      case None => None
      case Some(k) => Some(k + 1)
  }

  /**
   * The scan finds an element that satisfies `p` with none before it, and
   * finds nothing exactly when no element satisfies `p`.
   */
  lemma {:induction false} FirstMatchSpec<T>(s: seq<T>, p: T -> bool)
    ensures var r := FirstMatch(s, p);
      (r.Some? ==> p(s[r.value]) && forall j :: 0 <= j < r.value ==> !p(s[j])) &&
      (r.None? <==> forall j :: 0 <= j < |s| ==> !p(s[j]))
  {
    if s != [] && !p(s[0]) {
      FirstMatchSpec(s[1..], p);
      assert forall j :: 1 <= j < |s| ==> s[j] == s[1..][j - 1];
    }
  }

  /** An element that satisfies `p` with none before it is the first match. */
  lemma FirstMatchAt<T>(s: seq<T>, p: T -> bool, k: nat)
    requires k < |s| && p(s[k])
    requires forall j :: 0 <= j < k ==> !p(s[j])
    ensures FirstMatch(s, p) == Some(k)
  {
    FirstMatchSpec(s, p);
  }

  // ---------------------------------------------------------------------
  // PAGE_CEIL on vaddr_t
  // ---------------------------------------------------------------------

  const PAGE_SIZE: nat := 0x1000

  /**
   * `(addr + PAGE_SIZE - 1) & ~(PAGE_SIZE - 1)` on a 64-bit address: the sum
   * wraps, then the low twelve bits are cleared.
   */
  function PageCeil(addr: u64): u64
  {
    var sum := Add64(addr, 0xFFF);
    sum - sum % 0x1000
  }

  /** PAGE_CEIL always lands on a page boundary. */
  lemma PageCeilAligned(addr: u64)
    ensures PageCeil(addr) % PAGE_SIZE == 0
  {
  }

  /** Without overflow, PAGE_CEIL rounds up to the next page boundary. */
  lemma PageCeilBounds(addr: u64)
    requires addr + 0xFFF < U64_LIMIT
    ensures addr <= PageCeil(addr) < addr + PAGE_SIZE
    ensures addr % PAGE_SIZE == 0 ==> PageCeil(addr) == addr
  {
  }

  /** In the last page of the address space the sum wraps and PAGE_CEIL is 0. */
  lemma PageCeilWraps(addr: u64)
    requires U64_LIMIT <= addr + 0xFFF
    ensures PageCeil(addr) == 0
  {
  }

  // ---------------------------------------------------------------------
  // Which parts of the buffer the parser reads
  // ---------------------------------------------------------------------

  // Table offsets are written with the record sizes as literals (56 for
  // program headers, 64 for section headers, 24 for symbols) so
  // that the arithmetic stays linear for the prover.

  predicate IsSymbolTable(s: Section)
  {
    s.secType == SHT_SYMTAB || s.secType == SHT_DYNSYM
  }

  /** `size / sizeof(Elf_Sym)`: how many entries a symbol section holds. */
  function SymbolCount(s: Section): nat
  {
    s.size / 24
  }

  /** The class, machine and type checks init makes on the ELF header. */
  predicate HeaderChecksPass(h: Header)
  {
    h.elfClass == ELFCLASS64 && h.machine == EM_X86_64 && (h.elfType == ET_EXEC || h.elfType == ET_DYN)
  }

  /**
   * What init reads before its checks can reject the image: the ELF header,
   * and the program headers once the header checks pass.
   */
  predicate CheckedReadable(data: seq<byte>)
  {
    EHDR_SIZE <= |data| &&
    (HeaderChecksPass(HeaderOf(data)) ==> HeaderOf(data).phoff + 56 * HeaderOf(data).phnum <= |data|)
  }

  /** The program and section header tables, and the section header of the section-name string table, lie in the buffer. */
  predicate HeadersReadable(data: seq<byte>)
  {
    EHDR_SIZE <= |data| &&
    var h := HeaderOf(data);
    h.phoff + 56 * h.phnum <= |data| &&
    h.shoff + 64 * h.shnum <= |data| &&
    h.shoff + 64 * (h.shstrndx + 1) <= |data|
  }

  /** Every symbol section's entries lie in the buffer and its link names a section. */
  predicate SymbolTablesReadable(data: seq<byte>, sections: seq<Section>)
  {
    forall k :: 0 <= k < |sections| && IsSymbolTable(sections[k]) ==>
      sections[k].link < |sections| &&
      sections[k].offset + 24 * SymbolCount(sections[k]) <= |data|
  }

  /** Every fixed-size record the parser reads lies inside the buffer. */
  predicate Readable(data: seq<byte>)
  {
    HeadersReadable(data) &&
    SymbolTablesReadable(data, Sections(data, HeaderOf(data)))
  }

  // ---------------------------------------------------------------------
  // Program headers
  // ---------------------------------------------------------------------

  /** The `phnum` program headers starting at `phoff`, in table order. */
  function SegmentTable(data: seq<byte>, phoff: nat, phnum: nat): seq<Segment>
    requires phoff + 56 * phnum <= |data|
  {
    seq(phnum, i requires 0 <= i < phnum => SegmentAt(data, phoff + 56 * i))
  }

  /** Reading one more program header appends it. */
  lemma SegmentTableGrows(data: seq<byte>, phoff: nat, n: nat)
    requires phoff + 56 * (n + 1) <= |data|
    ensures SegmentTable(data, phoff, n + 1) == SegmentTable(data, phoff, n) + [SegmentAt(data, phoff + 56 * n)]
  {
  }

  predicate IsLoad(s: Segment)
  {
    s.segType == PT_LOAD
  }

  /** `m_load_addr` after the segment loop: min over PT_LOAD vaddrs, from u64 max. */
  function LoadAddrOf(segs: seq<Segment>): u64
  {
    if segs == [] then U64_MAX
    else
      var before := LoadAddrOf(segs[..|segs| - 1]);
      var s := segs[|segs| - 1];
      if IsLoad(s) && s.vaddr < before then s.vaddr else before
  }

  /** The first page boundary at or after the end of a segment's memory image. */
  function NextPage(s: Segment): u64
  {
    PageCeil(Add64(s.vaddr, s.memsize))
  }

  /** `m_initial_brk` after the segment loop: max over PT_LOAD next pages, from 0. */
  function InitialBrkOf(segs: seq<Segment>): u64
  {
    if segs == [] then 0
    else
      var before := InitialBrkOf(segs[..|segs| - 1]);
      var s := segs[|segs| - 1];
      if IsLoad(s) && before < NextPage(s) then NextPage(s) else before
  }

  /** `m_interpreter` after the segment loop: the string of the last PT_INTERP. */
  function InterpreterOf(data: seq<byte>, segs: seq<Segment>): string
  {
    if segs == [] then ""
    else if segs[|segs| - 1].segType == PT_INTERP then CString(data, segs[|segs| - 1].offset)
    else InterpreterOf(data, segs[..|segs| - 1])
  }

  /** One more program header updates the load address, the brk and the interpreter as init's loop body does. */
  lemma SegmentStep(data: seq<byte>, segs: seq<Segment>, s: Segment)
    ensures var all := segs + [s];
      LoadAddrOf(all) == (if IsLoad(s) && s.vaddr < LoadAddrOf(segs) then s.vaddr else LoadAddrOf(segs)) &&
      InitialBrkOf(all) == (if IsLoad(s) && InitialBrkOf(segs) < NextPage(s) then NextPage(s) else InitialBrkOf(segs)) &&
      InterpreterOf(data, all) == (if s.segType == PT_INTERP then CString(data, s.offset) else InterpreterOf(data, segs))
  {
    assert (segs + [s])[..|segs|] == segs;
  }

  /** The load address is the lowest PT_LOAD vaddr, and u64 max when there is none. */
  lemma {:induction false} LoadAddrIsLowest(segs: seq<Segment>)
    ensures forall k :: 0 <= k < |segs| && IsLoad(segs[k]) ==> LoadAddrOf(segs) <= segs[k].vaddr
    ensures (exists k :: 0 <= k < |segs| && IsLoad(segs[k])) ==>
              exists k :: 0 <= k < |segs| && IsLoad(segs[k]) && segs[k].vaddr == LoadAddrOf(segs)
    ensures (forall k :: 0 <= k < |segs| ==> !IsLoad(segs[k])) ==> LoadAddrOf(segs) == U64_MAX
  {
    if segs != [] {
      var init := segs[..|segs| - 1];
      LoadAddrIsLowest(init);
      assert forall k :: 0 <= k < |init| ==> init[k] == segs[k];
    }
  }

  /** The initial brk is the highest PT_LOAD next page, and 0 when there is none. */
  lemma {:induction false} InitialBrkIsHighest(segs: seq<Segment>)
    ensures forall k :: 0 <= k < |segs| && IsLoad(segs[k]) ==> NextPage(segs[k]) <= InitialBrkOf(segs)
    ensures (exists k :: 0 <= k < |segs| && IsLoad(segs[k])) ==>
              exists k :: 0 <= k < |segs| && IsLoad(segs[k]) && NextPage(segs[k]) == InitialBrkOf(segs)
    ensures (forall k :: 0 <= k < |segs| ==> !IsLoad(segs[k])) ==> InitialBrkOf(segs) == 0
  {
    if segs != [] {
      var init := segs[..|segs| - 1];
      InitialBrkIsHighest(init);
      assert forall k :: 0 <= k < |init| ==> init[k] == segs[k];
    }
  }

  /** Without a PT_INTERP segment the interpreter stays empty. */
  lemma {:induction false} InterpreterWithoutInterp(data: seq<byte>, segs: seq<Segment>)
    requires forall k :: 0 <= k < |segs| ==> segs[k].segType != PT_INTERP
    ensures InterpreterOf(data, segs) == ""
  {
    if segs != [] {
      InterpreterWithoutInterp(data, segs[..|segs| - 1]);
    }
  }

  /** The interpreter is the string at the offset of the last PT_INTERP segment. */
  lemma {:induction false} InterpreterIsLast(data: seq<byte>, segs: seq<Segment>, k: nat)
    requires k < |segs| && segs[k].segType == PT_INTERP
    requires forall j :: k < j < |segs| ==> segs[j].segType != PT_INTERP
    ensures InterpreterOf(data, segs) == CString(data, segs[k].offset)
  {
    if k < |segs| - 1 {
      var init := segs[..|segs| - 1];
      assert init[k] == segs[k];
      InterpreterIsLast(data, init, k);
    }
  }

  // ---------------------------------------------------------------------
  // The checks init makes
  // ---------------------------------------------------------------------

  /**
   * The outcome of init's assertions, in the order it makes them: class,
   * machine and type on the header, then, after the segment loop, a load
   * address of 0 for a PIE image.
   */
  function Verdict(data: seq<byte>): Result<()>
    requires CheckedReadable(data)
  {
    var h := HeaderOf(data);
    if h.elfClass != ELFCLASS64 then Fatal(ClassMismatch)
    else if h.machine != EM_X86_64 then Fatal(MachineMismatch)
    else if h.elfType != ET_EXEC && h.elfType != ET_DYN then Fatal(TypeMismatch)
    else if h.elfType == ET_DYN && LoadAddrOf(SegmentTable(data, h.phoff, h.phnum)) != 0 then Fatal(PieLoadAddrNotZero)
    else Ok(())
  }

  /**
   * An image is accepted exactly when it is a 64-bit x86-64 executable or
   * shared object and, if it is a shared object, one of its PT_LOAD segments
   * starts at virtual address 0.
   */
  lemma AcceptedImages(data: seq<byte>)
    requires CheckedReadable(data)
    ensures var h := HeaderOf(data);
      Verdict(data).Ok? <==>
        h.elfClass == ELFCLASS64 && h.machine == EM_X86_64 &&
        (h.elfType == ET_EXEC || h.elfType == ET_DYN) &&
        (h.elfType == ET_DYN ==>
          var segs := SegmentTable(data, h.phoff, h.phnum);
          exists k :: 0 <= k < |segs| && IsLoad(segs[k]) && segs[k].vaddr == 0)
  {
    var h := HeaderOf(data);
    if HeaderChecksPass(h) {
      LoadAddrIsLowest(SegmentTable(data, h.phoff, h.phnum));
    }
  }

  /**
   * An image that fails a header check is rejected by the first check it
   * fails, whatever its program headers and the rest of the buffer hold.
   */
  lemma RejectedOnHeader(data: seq<byte>)
    requires EHDR_SIZE <= |data| && !HeaderChecksPass(HeaderOf(data))
    ensures CheckedReadable(data) && Verdict(data).Fatal?
    ensures HeaderOf(data).elfClass != ELFCLASS64 ==> Verdict(data).error == ClassMismatch
    ensures HeaderOf(data).elfClass == ELFCLASS64 && HeaderOf(data).machine != EM_X86_64 ==>
              Verdict(data).error == MachineMismatch
    ensures HeaderOf(data).elfClass == ELFCLASS64 && HeaderOf(data).machine == EM_X86_64 ==>
              Verdict(data).error == TypeMismatch
  {
  }

  // ---------------------------------------------------------------------
  // Section headers
  // ---------------------------------------------------------------------

  /** Where the section-name string table starts: `shdr[e_shstrndx].sh_offset`. */
  function NameTableOffset(data: seq<byte>, h: Header): u64
    requires h.shoff + 64 * (h.shstrndx + 1) <= |data|
  {
    Read64(data, h.shoff + 64 * h.shstrndx + 24)
  }

  /** The `shnum` section headers starting at `shoff`, in table order, named from `strtab`. */
  function SectionTable(data: seq<byte>, shoff: nat, shnum: nat, strtab: nat): seq<Section>
    requires shoff + 64 * shnum <= |data|
  {
    seq(shnum, i requires 0 <= i < shnum => SectionAt(data, shoff + 64 * i, strtab))
  }

  /** The `e_shnum` section headers of the image, named from section e_shstrndx. */
  function Sections(data: seq<byte>, h: Header): seq<Section>
    requires h.shoff + 64 * h.shnum <= |data|
    requires h.shoff + 64 * (h.shstrndx + 1) <= |data|
  {
    SectionTable(data, h.shoff, h.shnum, NameTableOffset(data, h))
  }

  /** Reading one more section header appends it. */
  lemma SectionTableGrows(data: seq<byte>, shoff: nat, n: nat, strtab: nat)
    requires shoff + 64 * (n + 1) <= |data|
    ensures SectionTable(data, shoff, n + 1, strtab) ==
            SectionTable(data, shoff, n, strtab) + [SectionAt(data, shoff + 64 * n, strtab)]
  {
  }

  // ---------------------------------------------------------------------
  // Symbols
  // ---------------------------------------------------------------------

  /** The entries of section `k` when it is a symbol table, named from its linked section. */
  function SymbolsIn(data: seq<byte>, sections: seq<Section>, k: nat): seq<Symbol>
    requires k < |sections| && SymbolTablesReadable(data, sections)
  {
    var sec := sections[k];
    if !IsSymbolTable(sec) then []
    else
      var strtab := sections[sec.link].offset;
      seq(SymbolCount(sec), i requires 0 <= i < SymbolCount(sec) => SymbolAt(data, sec.offset + 24 * i, strtab))
  }

  /** The symbols of the first `n` sections, in section order. */
  function SymbolsOf(data: seq<byte>, sections: seq<Section>, n: nat): seq<Symbol>
    requires n <= |sections| && SymbolTablesReadable(data, sections)
  {
    if n == 0 then [] else SymbolsOf(data, sections, n - 1) + SymbolsIn(data, sections, n - 1)
  }

  /** How many symbols the symbol sections among the first `n` sections hold. */
  function SymbolTotal(sections: seq<Section>, n: nat): nat
    requires n <= |sections|
  {
    if n == 0 then 0
    else SymbolTotal(sections, n - 1) + (if IsSymbolTable(sections[n - 1]) then SymbolCount(sections[n - 1]) else 0)
  }

  lemma {:induction false} SymbolsLength(data: seq<byte>, sections: seq<Section>, n: nat)
    requires n <= |sections| && SymbolTablesReadable(data, sections)
    ensures |SymbolsOf(data, sections, n)| == SymbolTotal(sections, n)
  {
    if n > 0 {
      SymbolsLength(data, sections, n - 1);
    }
  }

  /** Reading more sections only appends symbols. */
  lemma {:induction false} SymbolsGrow(data: seq<byte>, sections: seq<Section>, m: nat, n: nat)
    requires m <= n <= |sections| && SymbolTablesReadable(data, sections)
    ensures SymbolsOf(data, sections, m) <= SymbolsOf(data, sections, n)
  {
    if m < n {
      SymbolsGrow(data, sections, m, n - 1);
    }
  }

  /**
   * Symbols come only from SHT_SYMTAB and SHT_DYNSYM sections, in section
   * order: the entries of section `k` follow those of the sections before
   * it, and the symbols of the first `n` sections start with all of them.
   */
  lemma {:induction false} SymbolsPlacement(data: seq<byte>, sections: seq<Section>, n: nat, k: nat)
    requires n <= |sections| && SymbolTablesReadable(data, sections)
    requires k < n
    ensures SymbolsOf(data, sections, k) + SymbolsIn(data, sections, k) <= SymbolsOf(data, sections, n)
  {
    SymbolsGrow(data, sections, k + 1, n);
  }

  /** Each symbol section contributes its entries, named from its linked section. */
  lemma SymbolsInEntries(data: seq<byte>, sections: seq<Section>, k: nat)
    requires k < |sections| && SymbolTablesReadable(data, sections) && IsSymbolTable(sections[k])
    ensures |SymbolsIn(data, sections, k)| == SymbolCount(sections[k])
    ensures forall i :: 0 <= i < SymbolCount(sections[k]) ==>
              SymbolsIn(data, sections, k)[i] ==
                SymbolAt(data, sections[k].offset + 24 * i, sections[sections[k].link].offset)
  {
    var sec := sections[k];
    var strtab := sections[sec.link].offset;
    assert SymbolsIn(data, sections, k) ==
           seq(SymbolCount(sec), i requires 0 <= i < SymbolCount(sec) => SymbolAt(data, sec.offset + 24 * i, strtab));
  }

  // ---------------------------------------------------------------------
  // Relocation of a PIE image
  // ---------------------------------------------------------------------

  /** The parser state that set_load_addr rewrites. */
  datatype Layout = Layout(
    loadAddr: u64, entry: u64, initialBrk: u64,
    segments: seq<Segment>, sections: seq<Section>, symbols: seq<Symbol>)

  function ShiftSegment(s: Segment, d: u64): Segment
  {
    s.(vaddr := Add64(s.vaddr, d), paddr := Add64(s.paddr, d))
  }

  function ShiftSection(s: Section, d: u64): Section
  {
    s.(addr := Add64(s.addr, d))
  }

  function ShiftSymbol(s: Symbol, d: u64): Symbol
  {
    s.(value := Add64(s.value, d))
  }

  /** Every virtual address moved by the wrapping delta from the old load address to `a`. */
  function Relocate(l: Layout, a: u64): Layout
  {
    var d := Sub64(a, l.loadAddr);
    Layout(
      a, Add64(l.entry, d), Add64(l.initialBrk, d),
      seq(|l.segments|, i requires 0 <= i < |l.segments| => ShiftSegment(l.segments[i], d)),
      seq(|l.sections|, i requires 0 <= i < |l.sections| => ShiftSection(l.sections[i], d)),
      seq(|l.symbols|, i requires 0 <= i < |l.symbols| => ShiftSymbol(l.symbols[i], d)))
  }

  /** An address as an offset from the load address, as the debug information sees it. */
  function Relative(addr: u64, l: Layout): u64
  {
    Sub64(addr, l.loadAddr)
  }

  /**
   * Relocation moves no address relative to the load address, and keeps
   * every name, size, type and count.
   */
  lemma RelocateKeepsRelativeAddresses(l: Layout, a: u64)
    ensures var r := Relocate(l, a);
      r.loadAddr == a &&
      Relative(r.entry, r) == Relative(l.entry, l) &&
      Relative(r.initialBrk, r) == Relative(l.initialBrk, l) &&
      |r.segments| == |l.segments| && |r.sections| == |l.sections| && |r.symbols| == |l.symbols| &&
      (forall i :: 0 <= i < |l.segments| ==>
        Relative(r.segments[i].vaddr, r) == Relative(l.segments[i].vaddr, l) &&
        Relative(r.segments[i].paddr, r) == Relative(l.segments[i].paddr, l) &&
        r.segments[i].(vaddr := 0, paddr := 0) == l.segments[i].(vaddr := 0, paddr := 0)) &&
      (forall i :: 0 <= i < |l.sections| ==>
        Relative(r.sections[i].addr, r) == Relative(l.sections[i].addr, l) &&
        r.sections[i].(addr := 0) == l.sections[i].(addr := 0)) &&
      (forall i :: 0 <= i < |l.symbols| ==>
        Relative(r.symbols[i].value, r) == Relative(l.symbols[i].value, l) &&
        r.symbols[i].(value := 0) == l.symbols[i].(value := 0))
  {
    var d := Sub64(a, l.loadAddr);
    forall x: u64 ensures Sub64(Add64(x, d), a) == Sub64(x, l.loadAddr) {
      ShiftedRelative(x, l.loadAddr, a);
    }
  }

  lemma ShiftedRelative(x: u64, l: u64, a: u64)
    ensures Sub64(Add64(x, Sub64(a, l)), a) == Sub64(x, l)
  {
  }

  /** Relocating to `a` and then to `b` is relocating straight to `b`. */
  lemma RelocateTwice(l: Layout, a: u64, b: u64)
    ensures Relocate(Relocate(l, a), b) == Relocate(l, b)
  {
    var d1, d2, d := Sub64(a, l.loadAddr), Sub64(b, a), Sub64(b, l.loadAddr);
    Deltas64Chain(l.loadAddr, a, b);
    forall x: u64 ensures Add64(Add64(x, d1), d2) == Add64(x, d) {
      Add64Assoc(x, d1, d2);
    }
  }

  /** Relocating to the current load address changes nothing. */
  lemma RelocateInPlace(l: Layout)
    ensures Relocate(l, l.loadAddr) == l
  {
    assert Sub64(l.loadAddr, l.loadAddr) == 0;
    var r := Relocate(l, l.loadAddr);
    assert r.segments == l.segments;
    assert r.sections == l.sections;
    assert r.symbols == l.symbols;
  }

  /** Relocating back to the old load address undoes a relocation. */
  lemma RelocateBack(l: Layout, a: u64)
    ensures Relocate(Relocate(l, a), l.loadAddr) == l
  {
    RelocateTwice(l, a, l.loadAddr);
    RelocateInPlace(l);
  }

  // ---------------------------------------------------------------------
  // Lookups
  // ---------------------------------------------------------------------

  /** A `[first, second)` address range. */
  datatype Range = Range(first: u64, second: u64)

  predicate InRange(r: Range, addr: u64)
  {
    r.first <= addr < r.second
  }

  function SectionIndex(sections: seq<Section>, name: string): Option<nat>
  {
    FirstMatch(sections, (s: Section) => s.name == name)
  }

  /** section_limits: `{addr, addr + size}` of the first section called `name`. */
  function SectionLimitsOf(sections: seq<Section>, name: string): Result<Range>
  {
    match SectionIndex(sections, name)
    case None => Fatal(SectionNotFound)
    case Some(k) => Ok(Range(sections[k].addr, Add64(sections[k].addr, sections[k].size)))
  }

  function SymbolIndex(symbols: seq<Symbol>, name: string): Option<nat>
  {
    FirstMatch(symbols, (s: Symbol) => s.name == name)
  }

  /** symbol_limits: `{value, value + size}` of the first symbol called `name`. */
  function SymbolLimitsOf(symbols: seq<Symbol>, name: string): Result<Range>
  {
    match SymbolIndex(symbols, name)
    case None => Fatal(SymbolNotFound)
    case Some(k) => Ok(Range(symbols[k].value, Add64(symbols[k].value, symbols[k].size)))
  }

  /** `value <= addr < value + size`, the end wrapping as the C sum does. */
  predicate Covers(s: Symbol, addr: u64)
  {
    s.value <= addr < Add64(s.value, s.size)
  }

  /** addr_to_symbol: the first symbol that covers `addr`. */
  function SymbolCovering(symbols: seq<Symbol>, addr: u64): Option<Symbol>
  {
    match FirstMatch(symbols, (s: Symbol) => Covers(s, addr))
    case None => None
    case Some(k) => Some(symbols[k])
  }

  /** A lookup by name fails exactly when no entry has that name, and otherwise spans the first one. */
  lemma SectionLimitsFirstMatch(sections: seq<Section>, name: string)
    ensures SectionLimitsOf(sections, name).Fatal? <==> forall k :: 0 <= k < |sections| ==> sections[k].name != name
    ensures SectionLimitsOf(sections, name).Fatal? ==> SectionLimitsOf(sections, name).error == SectionNotFound
    ensures forall k :: (0 <= k < |sections| && sections[k].name == name &&
              (forall j :: 0 <= j < k ==> sections[j].name != name)) ==>
              SectionLimitsOf(sections, name) == Ok(Range(sections[k].addr, Add64(sections[k].addr, sections[k].size)))
  {
    FirstMatchSpec(sections, (s: Section) => s.name == name);
    forall k | 0 <= k < |sections| && sections[k].name == name && (forall j :: 0 <= j < k ==> sections[j].name != name)
      ensures SectionIndex(sections, name) == Some(k)
    {
      FirstMatchAt(sections, (s: Section) => s.name == name, k);
    }
  }

  /** addr_to_symbol finds nothing exactly when no symbol covers the address. */
  /** symbol_limits fails exactly when no symbol has the name, and otherwise spans the first one. */
  lemma SymbolLimitsFirstMatch(symbols: seq<Symbol>, name: string)
    ensures SymbolLimitsOf(symbols, name).Fatal? <==> forall k :: 0 <= k < |symbols| ==> symbols[k].name != name
    ensures SymbolLimitsOf(symbols, name).Fatal? ==> SymbolLimitsOf(symbols, name).error == SymbolNotFound
    ensures forall k :: (0 <= k < |symbols| && symbols[k].name == name &&
              (forall j :: 0 <= j < k ==> symbols[j].name != name)) ==>
              SymbolLimitsOf(symbols, name) == Ok(Range(symbols[k].value, Add64(symbols[k].value, symbols[k].size)))
  {
    FirstMatchSpec(symbols, (s: Symbol) => s.name == name);
    forall k | 0 <= k < |symbols| && symbols[k].name == name && (forall j :: 0 <= j < k ==> symbols[j].name != name)
      ensures SymbolIndex(symbols, name) == Some(k)
    {
      FirstMatchAt(symbols, (s: Symbol) => s.name == name, k);
    }
  }

  lemma SymbolCoveringFirstMatch(symbols: seq<Symbol>, addr: u64)
    ensures SymbolCovering(symbols, addr).None? <==> forall k :: 0 <= k < |symbols| ==> !Covers(symbols[k], addr)
    ensures forall k :: (0 <= k < |symbols| && Covers(symbols[k], addr) &&
              (forall j :: 0 <= j < k ==> !Covers(symbols[j], addr))) ==>
              SymbolCovering(symbols, addr) == Some(symbols[k])
  {
    FirstMatchSpec(symbols, (s: Symbol) => Covers(s, addr));
    forall k | 0 <= k < |symbols| && Covers(symbols[k], addr) && (forall j :: 0 <= j < k ==> !Covers(symbols[j], addr))
      ensures SymbolCovering(symbols, addr) == Some(symbols[k])
    {
      FirstMatchAt(symbols, (s: Symbol) => Covers(s, addr), k);
    }
  }
}
