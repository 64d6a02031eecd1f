// Fixed-width integers, little-endian field decoding and the ELF64 record
// layouts of the System V gABI (chapter 4: ELF header, program header,
// section header, symbol table entry) as read by the hypervisor's ELF parser.

module ElfFormat {

  datatype Option<T> = None | Some(value: T)

  /** The reasons the parser stops with a fatal assertion. */
  datatype Error =
    | ClassMismatch        // e_ident[EI_CLASS] is not ELFCLASS64
    | MachineMismatch      // e_machine is not EM_X86_64
    | TypeMismatch         // e_type is neither ET_EXEC nor ET_DYN
    | PieLoadAddrNotZero   // an ET_DYN image whose lowest PT_LOAD vaddr is not 0
    | NotPie               // set_load_addr on an image that is not ET_DYN
    | SectionNotFound      // section_limits found no section of that name
    | SymbolNotFound       // symbol_limits found no symbol of that name

  /** An outcome that is either a value or a fatal assertion. */
  datatype Result<T> = Ok(value: T) | Fatal(error: Error)

  // ---------------------------------------------------------------------
  // Unsigned integers of the C types the parser uses
  // ---------------------------------------------------------------------

  const U64_LIMIT: int := 0x1_0000_0000_0000_0000

  type byte = x: int | 0 <= x < 0x100
  type u16 = x: int | 0 <= x < 0x1_0000
  type u32 = x: int | 0 <= x < 0x1_0000_0000
  type u64 = x: int | 0 <= x < 0x1_0000_0000_0000_0000

  const U64_MAX: u64 := 0xFFFF_FFFF_FFFF_FFFF

  /** `a + b` on `uint64_t`: the sum, less 2^64 when it carries out. */
  function Add64(a: u64, b: u64): u64
  {
    if a + b < U64_LIMIT then a + b else a + b - U64_LIMIT
  }

  /** `a - b` on `uint64_t`: the difference, plus 2^64 when it borrows. */
  function Sub64(a: u64, b: u64): u64
  {
    if b <= a then a - b else a - b + U64_LIMIT
  }

  /** Both are arithmetic modulo 2^64. */
  lemma Wrapping64(a: u64, b: u64)
    ensures Add64(a, b) == (a + b) % U64_LIMIT
    ensures Sub64(a, b) == (a - b) % U64_LIMIT
  {
    if a + b >= U64_LIMIT {
      assert a + b == U64_LIMIT + Add64(a, b);
    }
    if b > a {
      assert a - b == -U64_LIMIT + Sub64(a, b);
    }
  }

  /** Subtraction undoes addition, whatever wraps. */
  lemma AddSub64(a: u64, b: u64)
    ensures Sub64(Add64(a, b), b) == a
    ensures Add64(Sub64(a, b), b) == a
  {
  }

  /** Adding two deltas in turn is adding their (wrapped) sum. */
  lemma Add64Assoc(x: u64, d: u64, e: u64)
    ensures Add64(Add64(x, d), e) == Add64(x, Add64(d, e))
  {
  }

  /** Moving from `l` to `a` and then from `a` to `b` moves from `l` to `b`. */
  lemma Deltas64Chain(l: u64, a: u64, b: u64)
    ensures Add64(Sub64(a, l), Sub64(b, a)) == Sub64(b, l)
  {
  }

  // ---------------------------------------------------------------------
  // Little-endian fields
  // ---------------------------------------------------------------------

  function Pow256(n: nat): (r: nat)
    ensures r > 0
  {
    if n == 0 then 1 else 256 * Pow256(n - 1)
  }

  /** The unsigned little-endian integer held by `data[at..at + n]`. */
  function ReadLE(data: seq<byte>, at: nat, n: nat): (r: nat)
    requires at + n <= |data|
    ensures r < Pow256(n)
    decreases n
  {
    if n == 0 then 0 else data[at] + 256 * ReadLE(data, at + 1, n - 1)
  }

  /** The `n` little-endian bytes of `x`. */
  function EncodeLE(x: nat, n: nat): (r: seq<byte>)
    requires x < Pow256(n)
    ensures |r| == n
    decreases n
  {
    if n == 0 then [] else [x % 256] + EncodeLE(x / 256, n - 1)
  }

  /** Decoding what was encoded gives the integer back. */
  lemma {:induction false} ReadEncoded(x: nat, n: nat)
    requires x < Pow256(n)
    ensures ReadLE(EncodeLE(x, n), 0, n) == x
    decreases n
  {
    if n > 0 {
      var lo, hi := x % 256, x / 256;
      var e := EncodeLE(x, n);
      ReadEncoded(hi, n - 1);
      ReadShifted([lo], EncodeLE(hi, n - 1), 0, n - 1);
      assert e == [lo] + EncodeLE(hi, n - 1);
      assert ReadLE(e, 0, n) == lo + 256 * ReadLE(e, 1, n - 1);
      assert x == lo + 256 * hi;
    }
  }

  /** Reading past a prefix reads the bytes after it. */
  lemma {:induction false} ReadShifted(pre: seq<byte>, rest: seq<byte>, k: nat, n: nat)
    requires k + n <= |rest|
    ensures ReadLE(pre + rest, |pre| + k, n) == ReadLE(rest, k, n)
    decreases n
  {
    if n > 0 {
      ReadShifted(pre, rest, k + 1, n - 1);
    }
  }

  /** Splitting `lo + 256 * hi` into its low byte and the rest. */
  lemma LowByte(lo: byte, hi: nat)
    ensures (lo + 256 * hi) % 256 == lo && (lo + 256 * hi) / 256 == hi
  {
  }

  /** Encoding what was decoded gives the bytes back: the layout is one-to-one. */
  lemma {:induction false} EncodeRead(data: seq<byte>, at: nat, n: nat)
    requires at + n <= |data|
    ensures EncodeLE(ReadLE(data, at, n), n) == data[at..at + n]
    decreases n
  {
    if n > 0 {
      var rest := ReadLE(data, at + 1, n - 1);
      LowByte(data[at], rest);
      EncodeRead(data, at + 1, n - 1);
      assert data[at..at + n] == [data[at]] + data[at + 1..at + n];
    }
  }

  lemma Widths()
    ensures Pow256(1) == 0x100 && Pow256(2) == 0x1_0000
    ensures Pow256(4) == 0x1_0000_0000 && Pow256(8) == U64_LIMIT
  {
  }

  function Read8(data: seq<byte>, at: nat): byte
    requires at + 1 <= |data|
  {
    data[at]
  }

  function Read16(data: seq<byte>, at: nat): u16
    requires at + 2 <= |data|
  {
    Widths();
    ReadLE(data, at, 2)
  }

  function Read32(data: seq<byte>, at: nat): u32
    requires at + 4 <= |data|
  {
    Widths();
    ReadLE(data, at, 4)
  }

  function Read64(data: seq<byte>, at: nat): u64
    requires at + 8 <= |data|
  {
    Widths();
    ReadLE(data, at, 8)
  }

  /**
   * The NUL-terminated string that starts at `data[at]`, as `std::string`
   * builds it from a `char*`. A string with no NUL before the end of the
   * buffer stops at the end, and one that starts past the end is empty.
   */
  function CString(data: seq<byte>, at: nat): (r: string)
    decreases |data| - at
  {
    if at >= |data| || data[at] == 0 then ""
    else [data[at] as char] + CString(data, at + 1)
  }

  /**
   * The string holds the bytes from `at` up to the first NUL, none of them
   * NUL, and ends at a NUL or at the end of the buffer; a string that
   * starts past the end is empty.
   */
  lemma {:induction false} CStringStopsAtNul(data: seq<byte>, at: nat)
    ensures var r := CString(data, at);
      (at + |r| <= |data| || r == []) &&
      (forall i :: 0 <= i < |r| ==> at + i < |data| && r[i] as int == data[at + i] && r[i] as int != 0) &&
      (at + |r| < |data| ==> data[at + |r|] == 0)
    decreases |data| - at
  {
    if at < |data| && data[at] != 0 {
      CStringStopsAtNul(data, at + 1);
      var c := data[at] as char;
      assert c as int == data[at];
    }
  }

  // ---------------------------------------------------------------------
  // ELF64 constants (System V gABI, chapter 4, and the x86-64 psABI)
  // ---------------------------------------------------------------------

  const EI_CLASS: nat := 4
  const ELFCLASS64: byte := 2
  const EM_X86_64: u16 := 62
  const ET_EXEC: u16 := 2
  const ET_DYN: u16 := 3
  const PT_LOAD: u32 := 1
  const PT_INTERP: u32 := 3
  const SHT_SYMTAB: u32 := 2
  const SHT_DYNSYM: u32 := 11

  /** sizeof(Elf64_Ehdr), sizeof(Elf64_Phdr), sizeof(Elf64_Shdr), sizeof(Elf64_Sym). */
  const EHDR_SIZE: nat := 64
  const PHDR_SIZE: nat := 56
  const SHDR_SIZE: nat := 64
  const SYM_SIZE: nat := 24

  // ---------------------------------------------------------------------
  // Records
  // ---------------------------------------------------------------------

  /** The fields of Elf64_Ehdr the parser reads. */
  datatype Header = Header(
    elfClass: byte, elfType: u16, machine: u16, entry: u64,
    phoff: u64, shoff: u64, phentsize: u16, phnum: u16, shnum: u16, shstrndx: u16)

  /** phinfo_t: where the program headers are, for the loader's auxiliary vector. */
  datatype PhInfo = PhInfo(phoff: u64, phentsize: u16, phnum: u16)

  /** segment_t; its `data` pointer is `offset` bytes into the image. */
  datatype Segment = Segment(
    segType: u32, flags: u32, offset: u64, vaddr: u64, paddr: u64,
    filesize: u64, memsize: u64, align: u64)

  /** section_t; its `data` pointer is `offset` bytes into the image. */
  datatype Section = Section(
    name: string, secType: u32, flags: u64, addr: u64, offset: u64, size: u64,
    link: u32, info: u32, addralign: u64, entsize: u64)

  /** symbol_t. */
  datatype Symbol = Symbol(
    name: string, symType: byte, binding: byte, visibility: byte, shndx: u16,
    value: u64, size: u64)

  function HeaderOf(data: seq<byte>): Header
    requires EHDR_SIZE <= |data|
  {
    Header(
      elfClass := data[EI_CLASS],
      elfType := Read16(data, 16),
      machine := Read16(data, 18),
      entry := Read64(data, 24),
      phoff := Read64(data, 32),
      shoff := Read64(data, 40),
      phentsize := Read16(data, 54),
      phnum := Read16(data, 56),
      shnum := Read16(data, 60),
      shstrndx := Read16(data, 62))
  }

  /** The Elf64_Phdr at byte `at`. */
  function SegmentAt(data: seq<byte>, at: nat): Segment
    requires at + PHDR_SIZE <= |data|
  {
    Segment(
      segType := Read32(data, at),
      flags := Read32(data, at + 4),
      offset := Read64(data, at + 8),
      vaddr := Read64(data, at + 16),
      paddr := Read64(data, at + 24),
      filesize := Read64(data, at + 32),
      memsize := Read64(data, at + 40),
      align := Read64(data, at + 48))
  }

  /** The Elf64_Shdr at byte `at`, its name read from the string table at `strtab`. */
  function SectionAt(data: seq<byte>, at: nat, strtab: nat): Section
    requires at + SHDR_SIZE <= |data|
  {
    Section(
      name := CString(data, strtab + Read32(data, at)),
      secType := Read32(data, at + 4),
      flags := Read64(data, at + 8),
      addr := Read64(data, at + 16),
      offset := Read64(data, at + 24),
      size := Read64(data, at + 32),
      link := Read32(data, at + 40),
      info := Read32(data, at + 44),
      addralign := Read64(data, at + 48),
      entsize := Read64(data, at + 56))
  }

  /** ELF64_ST_TYPE, ELF64_ST_BIND and ELF64_ST_VISIBILITY. */
  function StType(info: byte): byte { info % 16 }
  function StBind(info: byte): byte { info / 16 }
  function StVisibility(other: byte): byte { other % 4 }

  /** ELF64_ST_INFO: binding in the high nibble, type in the low one. */
  function StInfo(binding: byte, symType: byte): byte
    requires binding < 16 && symType < 16
  {
    binding * 16 + symType
  }

  /** Splitting st_info and joining the halves again are inverse. */
  lemma StInfoRoundTrip(info: byte, binding: byte, symType: byte)
    requires binding < 16 && symType < 16
    ensures StBind(info) < 16 && StType(info) < 16
    ensures StInfo(StBind(info), StType(info)) == info
    ensures StBind(StInfo(binding, symType)) == binding
    ensures StType(StInfo(binding, symType)) == symType
  {
  }

  /** The Elf64_Sym at byte `at`, its name read from the string table at `strtab`. */
  function SymbolAt(data: seq<byte>, at: nat, strtab: nat): Symbol
    requires at + SYM_SIZE <= |data|
  {
    Symbol(
      name := CString(data, strtab + Read32(data, at)),
      symType := StType(Read8(data, at + 4)),
      binding := StBind(Read8(data, at + 4)),
      visibility := StVisibility(Read8(data, at + 5)),
      shndx := Read16(data, at + 6),
      value := Read64(data, at + 8),
      size := Read64(data, at + 16))
  }
}
