// The hypervisor's ElfParser: an object built over an image held in memory
// that parses it once, can move a PIE image to a new load address, answers
// lookups by name and by address, and walks the guest's stack through one
// image or through a list of loaded images. Each method is proved against
// the value-level definitions of ElfImage, Ldd and Unwind.

module Elf {
  import opened ElfFormat
  import opened ElfImage
  import opened Ldd
  import opened Unwind

  class ElfParser {
    const path: string
    const data: seq<byte>
    const size: nat
    var phinfo: PhInfo
    var elfType: u16
    var entry: u64
    var loadAddr: u64
    var initialBrk: u64
    var segments: seq<Segment>
    var sections: seq<Section>
    var symbols: seq<Symbol>
    var dependencies: seq<string>
    var interpreter: string

    /** The virtual addresses set_load_addr rewrites, and the tables that hold them. */
    function Addresses(): Layout
      reads this
    {
      Layout(loadAddr, entry, initialBrk, segments, sections, symbols)
    }

    /** What a stack walk reads of this image. */
    function View(): ImageView
      reads this
    {
      ImageView(elfType == ET_DYN, loadAddr, SectionLimitsOf(sections, ".text"), data)
    }

    /** The constructor over an image already in memory, before init runs. */
    constructor (path: string, data: seq<byte>)
      ensures this.path == path && this.data == data && size == |data|
      ensures segments == [] && sections == [] && symbols == [] && dependencies == [] && interpreter == ""
    {
      this.path := path;
      this.data := data;
      size := |data|;
      phinfo := PhInfo(0, 0, 0);
      elfType := 0;
      entry := 0;
      loadAddr := 0;
      initialBrk := 0;
      segments := [];
      sections := [];
      symbols := [];
      dependencies := [];
      interpreter := "";
    }

    /**
     * init: read the header, check it, read the program headers, check the
     * load address of a PIE image, then read the section headers, the
     * symbol tables and the dependencies listed in `lddOutput`, the text
     * `ldd <path>` prints. A failed check ends the parse with its error.
     */
    method Init(lddOutput: string) returns (r: Result<()>)
      requires CheckedReadable(data) && (Verdict(data).Ok? ==> Readable(data))
      requires segments == [] && sections == [] && symbols == [] && dependencies == [] && interpreter == ""
      modifies this
      ensures var h := HeaderOf(data);
        phinfo == PhInfo(h.phoff, h.phentsize, h.phnum) && elfType == h.elfType && entry == h.entry
      ensures r == Verdict(data)
      ensures r.Ok? ==>
        var h := HeaderOf(data);
        segments == SegmentTable(data, h.phoff, h.phnum) &&
        loadAddr == LoadAddrOf(segments) &&
        initialBrk == InitialBrkOf(segments) &&
        interpreter == InterpreterOf(data, segments) &&
        sections == Sections(data, h) &&
        symbols == SymbolsOf(data, sections, |sections|) &&
        dependencies == DependenciesOf(SplitString(lddOutput, '\n'))
    {
      var h := HeaderOf(data);
      phinfo := PhInfo(h.phoff, h.phentsize, h.phnum);
      elfType := h.elfType;
      entry := h.entry;

      if h.elfClass != ELFCLASS64 {
        return Fatal(ClassMismatch);
      }
      if h.machine != EM_X86_64 {
        return Fatal(MachineMismatch);
      }
      if h.elfType != ET_EXEC && h.elfType != ET_DYN {
        return Fatal(TypeMismatch);
      }

      ReadSegments(h);
      if elfType == ET_DYN && loadAddr != 0 {
        return Fatal(PieLoadAddrNotZero);
      }

      ReadSections(h);
      ReadSymbols();
      ReadDependencies(lddOutput);
      return Ok(());
    }

    /** The program-header loop of init, with its load-address, brk and interpreter updates. */
    method ReadSegments(h: Header)
      requires h.phoff + 56 * h.phnum <= |data|
      requires segments == [] && interpreter == ""
      modifies this`segments, this`loadAddr, this`initialBrk, this`interpreter
      ensures segments == SegmentTable(data, h.phoff, h.phnum)
      ensures loadAddr == LoadAddrOf(segments) && initialBrk == InitialBrkOf(segments)
      ensures interpreter == InterpreterOf(data, segments)
    {
      loadAddr := U64_MAX;
      initialBrk := 0;
      var i := 0;
      while i < h.phnum
        invariant 0 <= i <= h.phnum
        invariant segments == SegmentTable(data, h.phoff, i)
        invariant loadAddr == LoadAddrOf(segments) && initialBrk == InitialBrkOf(segments)
        invariant interpreter == InterpreterOf(data, segments)
      {
        var segment := ReadSegment(h.phoff, i);
        SegmentStep(data, segments, segment);
        segments := segments + [segment];
        if segment.segType == PT_LOAD {
          var nextPage := PageCeil(Add64(segment.vaddr, segment.memsize));
          initialBrk := if initialBrk < nextPage then nextPage else initialBrk;
          loadAddr := if segment.vaddr < loadAddr then segment.vaddr else loadAddr;
        }
        if segment.segType == PT_INTERP {
          interpreter := CString(data, segment.offset);
        }
        i := i + 1;
      }
    }

    /** The program header at index `i` of the table at `phoff`: the table read so far grows by it. */
    method ReadSegment(phoff: nat, i: nat) returns (s: Segment)
      requires phoff + 56 * (i + 1) <= |data|
      ensures SegmentTable(data, phoff, i) + [s] == SegmentTable(data, phoff, i + 1)
    {
      s := SegmentAt(data, phoff + 56 * i);
      SegmentTableGrows(data, phoff, i);
    }

    /** The section-header loop of init, naming each section from section e_shstrndx. */
    method ReadSections(h: Header)
      requires h.shoff + 64 * h.shnum <= |data| && h.shoff + 64 * (h.shstrndx + 1) <= |data|
      requires sections == []
      modifies this`sections
      ensures sections == Sections(data, h)
    {
      var strtab := NameTableOffset(data, h);
      var i := 0;
      while i < h.shnum
        invariant 0 <= i <= h.shnum
        invariant sections == SectionTable(data, h.shoff, i, strtab)
      {
        SectionTableGrows(data, h.shoff, i, strtab);
        sections := sections + [SectionAt(data, h.shoff + 64 * i, strtab)];
        i := i + 1;
      }
    }

    /** The symbol loop of init: every entry of every SHT_SYMTAB and SHT_DYNSYM section. */
    method ReadSymbols()
      requires SymbolTablesReadable(data, sections)
      requires symbols == []
      modifies this`symbols
      ensures symbols == SymbolsOf(data, sections, |sections|)
    {
      var k := 0;
      while k < |sections|
        invariant 0 <= k <= |sections|
        invariant symbols == SymbolsOf(data, sections, k)
      {
        if IsSymbolTable(sections[k]) {
          ReadSymbolTable(k);
        }
        k := k + 1;
      }
    }

    /** The entries of one symbol section, named from the string table its link names. */
    method ReadSymbolTable(k: nat)
      requires k < |sections| && SymbolTablesReadable(data, sections) && IsSymbolTable(sections[k])
      modifies this`symbols
      ensures symbols == old(symbols) + SymbolsIn(data, sections, k)
    {
      var section := sections[k];
      var count := section.size / 24;
      var strtab := sections[section.link].offset;
      SymbolsInEntries(data, sections, k);
      ghost var entries := SymbolsIn(data, sections, k);
      var i := 0;
      while i < count
        invariant 0 <= i <= count
        invariant symbols == old(symbols) + entries[..i]
      {
        symbols := symbols + [SymbolAt(data, section.offset + 24 * i, strtab)];
        assert entries[..i + 1] == entries[..i] + [entries[i]];
        i := i + 1;
      }
      assert entries[..count] == entries;
    }

    /** The ldd loop of init: one dependency per line that has "=> " and a space after it. */
    method ReadDependencies(lddOutput: string)
      requires dependencies == []
      modifies this`dependencies
      ensures dependencies == DependenciesOf(SplitString(lddOutput, '\n'))
    {
      var lines := SplitString(lddOutput, '\n');
      var j := 0;
      while j < |lines|
        invariant 0 <= j <= |lines|
        invariant dependencies == DependenciesOf(lines[..j])
      {
        var line := lines[j];
        DependenciesStep(lines, j);
        var pos1 := Find(line, ARROW, 0);
        if pos1.Some? {
          var start := pos1.value + 3;
          var pos2 := Find(line, " ", start);
          if pos2.Some? {
            dependencies := dependencies + [line[start..pos2.value]];
          }
        }
        j := j + 1;
      }
      assert lines[..|lines|] == lines;
    }

    /**
     * set_load_addr: only a PIE image can move; every virtual address moves
     * by the wrapping difference between the new and the old load address.
     */
    method SetLoadAddr(a: u64) returns (r: Result<()>)
      modifies this`loadAddr, this`entry, this`initialBrk, this`segments, this`sections, this`symbols
      ensures r.Fatal? <==> elfType != ET_DYN
      ensures r.Fatal? ==> r.error == NotPie && Addresses() == old(Addresses())
      ensures r.Ok? ==> Addresses() == Relocate(old(Addresses()), a)
    {
      if elfType != ET_DYN {
        return Fatal(NotPie);
      }
      ghost var target := Relocate(old(Addresses()), a);
      var diff := Sub64(a, loadAddr);
      loadAddr := a;
      entry := Add64(entry, diff);
      initialBrk := Add64(initialBrk, diff);

      var i := 0;
      while i < |segments|
        invariant 0 <= i <= |segments| == |old(segments)|
        invariant forall j :: 0 <= j < i ==> segments[j] == ShiftSegment(old(segments)[j], diff)
        invariant forall j :: i <= j < |segments| ==> segments[j] == old(segments)[j]
        invariant loadAddr == target.loadAddr && entry == target.entry && initialBrk == target.initialBrk
        invariant sections == old(sections) && symbols == old(symbols)
      {
        var segment := segments[i];
        segments := segments[i := segment.(vaddr := Add64(segment.vaddr, diff), paddr := Add64(segment.paddr, diff))];
        i := i + 1;
      }
      assert segments == target.segments;

      i := 0;
      while i < |sections|
        invariant 0 <= i <= |sections| == |old(sections)|
        invariant forall j :: 0 <= j < i ==> sections[j] == ShiftSection(old(sections)[j], diff)
        invariant forall j :: i <= j < |sections| ==> sections[j] == old(sections)[j]
        invariant loadAddr == target.loadAddr && entry == target.entry && initialBrk == target.initialBrk
        invariant segments == target.segments && symbols == old(symbols)
      {
        sections := sections[i := sections[i].(addr := Add64(sections[i].addr, diff))];
        i := i + 1;
      }
      assert sections == target.sections;

      i := 0;
      while i < |symbols|
        invariant 0 <= i <= |symbols| == |old(symbols)|
        invariant forall j :: 0 <= j < i ==> symbols[j] == ShiftSymbol(old(symbols)[j], diff)
        invariant forall j :: i <= j < |symbols| ==> symbols[j] == old(symbols)[j]
        invariant loadAddr == target.loadAddr && entry == target.entry && initialBrk == target.initialBrk
        invariant segments == target.segments && sections == target.sections
      {
        symbols := symbols[i := symbols[i].(value := Add64(symbols[i].value, diff))];
        i := i + 1;
      }
      assert symbols == target.symbols;
      return Ok(());
    }

    /** section_limits: the span of the first section called `name`; fatal when there is none. */
    method SectionLimits(name: string) returns (r: Result<Range>)
      ensures r == SectionLimitsOf(sections, name)
    {
      var i := 0;
      while i < |sections|
        invariant 0 <= i <= |sections|
        invariant forall j :: 0 <= j < i ==> sections[j].name != name
      {
        if sections[i].name == name {
          SectionLimitsFirstMatch(sections, name);
          return Ok(Range(sections[i].addr, Add64(sections[i].addr, sections[i].size)));
        }
        i := i + 1;
      }
      SectionLimitsFirstMatch(sections, name);
      return Fatal(SectionNotFound);
    }

    /** symbol_limits: the span of the first symbol called `name`; fatal when there is none. */
    method SymbolLimits(name: string) returns (r: Result<Range>)
      ensures r == SymbolLimitsOf(symbols, name)
    {
      var i := 0;
      while i < |symbols|
        invariant 0 <= i <= |symbols|
        invariant forall j :: 0 <= j < i ==> symbols[j].name != name
      {
        if symbols[i].name == name {
          SymbolLimitsFirstMatch(symbols, name);
          return Ok(Range(symbols[i].value, Add64(symbols[i].value, symbols[i].size)));
        }
        i := i + 1;
      }
      SymbolLimitsFirstMatch(symbols, name);
      return Fatal(SymbolNotFound);
    }

    /** addr_to_symbol: the first symbol whose `[value, value + size)` holds `addr`. */
    method AddrToSymbol(addr: u64) returns (r: Option<Symbol>)
      ensures r == SymbolCovering(symbols, addr)
    {
      var i := 0;
      while i < |symbols|
        invariant 0 <= i <= |symbols|
        invariant forall j :: 0 <= j < i ==> !Covers(symbols[j], addr)
      {
        var symbol := symbols[i];
        if addr >= symbol.value && addr < Add64(symbol.value, symbol.size) {
          SymbolCoveringFirstMatch(symbols, addr);
          return Some(symbol);
        }
        i := i + 1;
      }
      SymbolCoveringFirstMatch(symbols, addr);
      return None;
    }

    /**
     * The address addr_to_source hands to the debug information: relative
     * to the load address for a PIE image, unchanged otherwise.
     */
    function DebugAddress(addr: u64): (r: u64)
      reads this
      ensures elfType == ET_DYN ==> r == Relative(addr, Addresses()) && Add64(r, loadAddr) == addr
      ensures elfType != ET_DYN ==> r == addr
    {
      AddSub64(addr, loadAddr);
      if elfType == ET_DYN then Sub64(addr, loadAddr) else addr
    }

    /**
     * get_stacktrace over this image: record the return address, make it
     * relative for a PIE image, and ask the unwinder for the caller while
     * fewer than `numFrames` are recorded and the caller lies in `.text`.
     * An image without `.text` is fatal.
     */
    method GetStacktrace(kregs: KvmRegs, numFrames: nat, next: Unwinder) returns (r: Result<seq<u64>>)
      ensures r.Fatal? <==> View().text.Fatal?
      ensures r.Fatal? ==> r.error == SectionNotFound
      ensures r.Ok? ==> r.value == Walk(View(), next, DwarfRegsOf(kregs), 0, numFrames)
    {
      var regs := new u64[DWARF_MAX];
      KvmToDwarfRegs(kregs, regs);
      var limits := SectionLimits(".text");
      if limits.Fatal? {
        return Fatal(limits.error);
      }
      var stacktrace := WalkFrames(data, elfType == ET_DYN, loadAddr, limits.value, regs, numFrames, next);
      return Ok(stacktrace);
    }
  }

  /** kvm_to_dwarf_regs: fill the DWARF register file from the guest's registers. */
  method KvmToDwarfRegs(kregs: KvmRegs, regs: array<u64>)
    requires regs.Length == DWARF_MAX
    modifies regs
    ensures regs[..] == DwarfRegsOf(kregs)
  {
    regs[RAX] := kregs.rax;
    regs[RDX] := kregs.rdx;
    regs[RCX] := kregs.rdx;
    regs[RBX] := kregs.rbx;
    regs[RSI] := kregs.rsi;
    regs[RDI] := kregs.rdi;
    regs[RBP] := kregs.rbp;
    regs[RSP] := kregs.rsp;
    regs[R8] := kregs.r8;
    regs[R9] := kregs.r9;
    regs[R10] := kregs.r10;
    regs[R11] := kregs.r11;
    regs[R12] := kregs.r12;
    regs[R13] := kregs.r13;
    regs[R14] := kregs.r14;
    regs[R15] := kregs.r15;
    regs[RETURN_ADDRESS] := kregs.rip;
    Slots(regs[..]);
  }

  /** A register file is the display of its slots. */
  lemma Slots(s: Regs)
    requires |s| == DWARF_MAX
    ensures s == [s[0], s[1], s[2], s[3], s[4], s[5], s[6], s[7], s[8],
                  s[9], s[10], s[11], s[12], s[13], s[14], s[15], s[16]]
  {
  }

  /**
   * The do-while loop of the single-image get_stacktrace, over an image
   * whose `.text` spans `text`: `regs` holds the registers of the first frame.
   */
  method WalkFrames(data: seq<byte>, dyn: bool, loadAddr: u64, text: Range, regs: array<u64>, numFrames: nat, next: Unwinder)
    returns (stacktrace: seq<u64>)
    requires regs.Length == DWARF_MAX
    modifies regs
    ensures stacktrace == Walk(ImageView(dyn, loadAddr, Ok(text), data), next, old(regs[..]), 0, numFrames)
  {
    ghost var v := ImageView(dyn, loadAddr, Ok(text), data);
    ghost var whole := Walk(v, next, regs[..], 0, numFrames);
    stacktrace := [];
    var i: nat := 0;
    assert stacktrace + whole == whole;
    while true
      invariant stacktrace + Walk(v, next, regs[..], i, numFrames) == whole
      decreases numFrames - i
    {
      ghost var current: Regs := regs[..];
      WalkAdvance(v, next, current, i, numFrames, stacktrace, whole);
      stacktrace := stacktrace + [regs[RETURN_ADDRESS]];
      if dyn {
        regs[RETURN_ADDRESS] := Sub64(regs[RETURN_ADDRESS], loadAddr);
      }
      assert regs[..] == Handed(v, current);
      i := i + 1;
      if i >= numFrames {
        break;
      }
      var caller := next(data, regs[..]);
      if caller.None? {
        break;
      }
      CopyRegs(caller.value, regs);
      if !(regs[RETURN_ADDRESS] >= text.first && regs[RETURN_ADDRESS] < text.second) {
        break;
      }
    }
  }

  /** The unwinder's answer written back into the caller's register array. */
  method CopyRegs(src: Regs, regs: array<u64>)
    requires regs.Length == DWARF_MAX
    modifies regs
    ensures regs[..] == src
  {
    forall k | 0 <= k < DWARF_MAX {
      regs[k] := src[k];
    }
  }

  /** What a stack walk reads of each image of the list. */
  function Views(elfs: seq<ElfParser>): (r: seq<ImageView>)
    reads elfs
    ensures |r| == |elfs| && forall k :: 0 <= k < |elfs| ==> r[k] == elfs[k].View()
  {
    seq(|elfs|, k requires 0 <= k < |elfs| reads elfs => elfs[k].View())
  }

  /**
   * elf_with_addr_in_text: the first image of the list whose `.text` holds
   * `addr`, or null; an image without `.text` on the way is fatal.
   */
  method ElfWithAddrInText(elfs: seq<ElfParser>, addr: u64) returns (r: Result<ElfParser?>)
    ensures var found := ImageWithAddr(Views(elfs), addr);
      (r.Fatal? <==> found.Fatal?) && (r.Fatal? ==> r.error == found.error) &&
      (found == Ok(None) ==> r == Ok(null)) &&
      (found.Ok? && found.value.Some? ==> found.value.value < |elfs| && r.Ok? && r.value == elfs[found.value.value])
  {
    ghost var views := Views(elfs);
    var i := 0;
    while i < |elfs|
      invariant 0 <= i <= |elfs|
      invariant forall j :: 0 <= j < i ==> !StopsAt(views[j], addr)
    {
      var range := elfs[i].SectionLimits(".text");
      if range.Fatal? || (range.value.first <= addr && addr < range.value.second) {
        FirstMatchAt(views, (v: ImageView) => StopsAt(v, addr), i);
        if range.Fatal? {
          return Fatal(range.error);
        }
        return Ok(elfs[i]);
      }
      i := i + 1;
    }
    FirstMatchSpec(views, (v: ImageView) => StopsAt(v, addr));
    return Ok(null);
  }

  /** The recorded pairs name the images the walk's indices point at. */
  ghost predicate Tags(stacktrace: seq<(u64, ElfParser)>, elfs: seq<ElfParser>, frames: seq<(u64, nat)>)
  {
    |stacktrace| == |frames| &&
    forall k :: 0 <= k < |frames| ==>
      stacktrace[k].0 == frames[k].0 && frames[k].1 < |elfs| && stacktrace[k].1 == elfs[frames[k].1]
  }

  /** The walk's outcome with each image index replaced by the image itself. */
  ghost predicate Tagged(r: Result<seq<(u64, ElfParser)>>, elfs: seq<ElfParser>, walk: Result<seq<(u64, nat)>>)
  {
    match walk
    case Fatal(e) => r == Fatal(e)
    case Ok(frames) => r.Ok? && Tags(r.value, elfs, frames)
  }

  lemma TagsAppend(stacktrace: seq<(u64, ElfParser)>, elfs: seq<ElfParser>, frames: seq<(u64, nat)>, addr: u64, index: nat)
    requires Tags(stacktrace, elfs, frames) && index < |elfs|
    ensures Tags(stacktrace + [(addr, elfs[index])], elfs, frames + [(addr, index)])
  {
  }

  /**
   * get_stacktrace over a list of images: each frame's return address is
   * looked up in the list, recorded with the image that holds it, and
   * unwound with that image's debug information.
   */
  method GetStacktraceOverImages(elfs: seq<ElfParser>, kregs: KvmRegs, numFrames: nat, next: Unwinder)
    returns (r: Result<seq<(u64, ElfParser)>>)
    ensures Tagged(r, elfs, MultiWalk(Views(elfs), next, DwarfRegsOf(kregs), 0, numFrames))
  {
    var regs := new u64[DWARF_MAX];
    KvmToDwarfRegs(kregs, regs);
    r := WalkImages(elfs, Views(elfs), regs, numFrames, next);
  }

  /**
   * The do-while loop of the multi-image get_stacktrace: `regs` holds the
   * registers of the first frame and `views` what the walk reads of `elfs`.
   */
  method WalkImages(elfs: seq<ElfParser>, ghost views: seq<ImageView>, regs: array<u64>, numFrames: nat, next: Unwinder)
    returns (r: Result<seq<(u64, ElfParser)>>)
    requires views == Views(elfs) && regs.Length == DWARF_MAX
    modifies regs
    ensures Tagged(r, elfs, MultiWalk(views, next, old(regs[..]), 0, numFrames))
  {
    ghost var whole := MultiWalk(views, next, regs[..], 0, numFrames);
    var stacktrace: seq<(u64, ElfParser)> := [];
    ghost var frames: seq<(u64, nat)> := [];
    var i: nat := 0;
    assert After(frames, whole) == whole by {
      if whole.Ok? {
        assert frames + whole.value == whole.value;
      }
    }
    while true
      invariant views == Views(elfs)
      invariant Tags(stacktrace, elfs, frames)
      invariant After(frames, MultiWalk(views, next, regs[..], i, numFrames)) == whole
      decreases numFrames - i
    {
      ghost var current: Regs := regs[..];
      var found := ElfWithAddrInText(elfs, regs[RETURN_ADDRESS]);
      if found.Fatal? {
        MultiWalkFails(views, next, current, i, numFrames, frames, whole);
        return Fatal(found.error);
      }
      var elf := found.value;
      if elf == null {
        MultiWalkEnds(views, next, current, i, numFrames, frames, whole);
        return Ok(stacktrace);
      }
      ghost var index := ImageWithAddr(views, current[RETURN_ADDRESS]).value.value;
      MultiWalkRecords(views, next, current, i, numFrames, frames, whole, index);
      TagsAppend(stacktrace, elfs, frames, regs[RETURN_ADDRESS], index);
      stacktrace := stacktrace + [(regs[RETURN_ADDRESS], elf)];
      frames := frames + [(current[RETURN_ADDRESS], index)];
      assert views[index] == elf.View();
      var more := HandOn(elf, regs, i, numFrames, next);
      i := i + 1;
      if !more {
        return Ok(stacktrace);
      }
    }
  }

  /**
   * The end of one step of the multi-image walk: the return address is made
   * relative for a PIE image, then the walk goes on, with the caller's
   * registers, while frames remain and `elf`'s unwinder finds a caller.
   */
  method HandOn(elf: ElfParser, regs: array<u64>, i: nat, numFrames: nat, next: Unwinder) returns (more: bool)
    requires regs.Length == DWARF_MAX
    modifies regs
    ensures var caller := next(elf.data, Handed(elf.View(), old(regs[..])));
      (more <==> i + 1 < numFrames && caller.Some?) && (more ==> regs[..] == caller.value)
  {
    ghost var current: Regs := regs[..];
    if elf.elfType == ET_DYN {
      regs[RETURN_ADDRESS] := Sub64(regs[RETURN_ADDRESS], elf.loadAddr);
    }
    assert regs[..] == Handed(elf.View(), current);
    if i + 1 >= numFrames {
      return false;
    }
    var caller := next(elf.data, regs[..]);
    if caller.None? {
      return false;
    }
    CopyRegs(caller.value, regs);
    return true;
  }
}
