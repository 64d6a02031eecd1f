// The x86-64 paging-structure entry and the address-split macros of the guest
// kernel. Every quantity is a 64-bit word; the layout of an entry follows the
// 4-level paging format of the Intel SDM, Vol. 3A, section 4.5.
//
// Bit-vector facts are proved one per lemma, on words where the masks are
// written as literals, and then combined through named predicates: a proof
// obligation that mixes several bit-vector facts, or case-splits inside one,
// costs the solver far more than its parts do.

module PageTable {

  // ---------------------------------------------------------------------------
  // Address-split macros (PTLn_*, PAGE_*)
  // ---------------------------------------------------------------------------

  /** A paging level: 4 is the top level (PML4), 1 the leaf level (PT). */
  type Level = n: nat | 1 <= n <= 4 witness 1

  /** PTLn_SHIFT: the position of level n's index field in a virtual address. */
  function Shift(n: Level): bv64 {
    if n == 4 then 39 else if n == 3 then 30 else if n == 2 then 21 else 12
  }

  /** PTLn_BITS: every level's index field is 9 bits wide. */
  const PTL_BITS: bv64 := 9

  /** PTRS_PER_PTLn: the number of entries in one paging structure. */
  const PTRS_PER_TABLE: bv64 := 1 << PTL_BITS

  /** PTLn_SIZE: the span of memory one entry of level n maps. */
  function Size(n: Level): bv64 {
    1 << Shift(n)
  }

  /** PTLn_MASK: clears the bits below level n's index field. */
  function Mask(n: Level): bv64 {
    !(Size(n) - 1)
  }

  /** PAGE_SIZE, which is PTL1_SIZE. */
  const PAGE_SIZE: bv64 := 0x1000

  /** PTL1_MASK, written out: it keeps the page-frame part of an address. */
  const PAGE_MASK: bv64 := 0xFFFF_FFFF_FFFF_F000

  /** The largest address whose PAGE_CEIL does not wrap around. */
  const LAST_PAGE: bv64 := 0xFFFF_FFFF_FFFF_F000

  /** The literals used below are the macros' values: PTRS_PER_PTLn - 1 is
      0x1FF, PTL1_SIZE is 0x1000 and PTL1_MASK is ~0xFFF. */
  lemma MacroConstants()
    ensures PTRS_PER_TABLE == 512 && PTRS_PER_TABLE - 1 == 0x1FF
    ensures Size(1) == PAGE_SIZE == 0x1000
    ensures Mask(1) == PAGE_MASK == 0xFFFF_FFFF_FFFF_F000
  {
  }

  /** PTLn_INDEX(addr): the slot that `addr` selects in a level-n table,
      `(addr >> PTLn_SHIFT) & (PTRS_PER_PTLn - 1)`. */
  function Index(n: Level, addr: bv64): (r: bv64)
    ensures r < PTRS_PER_TABLE
  {
    (addr >> Shift(n)) & 0x1FF
  }

  /** PAGE_OFFSET(addr), `addr & ~PTL1_MASK`: the position of `addr` inside
      its 4 KiB page. */
  function PageOffset(addr: bv64): (r: bv64)
    ensures r < PAGE_SIZE
  {
    addr & 0xFFF
  }

  /** The page part and the offset part add up to the address again. */
  lemma PageOffsetSplits(addr: bv64)
    ensures (addr & PAGE_MASK) + PageOffset(addr) == addr
  {
  }

  /** IS_PAGE_ALIGNED(addr): `(addr & PTL1_MASK) == addr`. */
  predicate IsPageAligned(addr: bv64) {
    addr & 0xFFFF_FFFF_FFFF_F000 == addr
  }

  /** PAGE_CEIL(addr), `(addr + PAGE_SIZE - 1) & PTL1_MASK`: rounds up to a
      page boundary, wrapping around like the C expression when `addr + 0xFFF`
      overflows. */
  function PageCeil(addr: bv64): (r: bv64)
    ensures IsPageAligned(r)
  {
    (addr + 0xFFF) & 0xFFFF_FFFF_FFFF_F000
  }

  lemma PageCeilOfAligned(addr: bv64)
    requires addr & 0xFFF == 0
    ensures PageCeil(addr) == addr
  {
  }

  lemma PageCeilOfUnaligned(addr: bv64)
    requires addr & 0xFFF != 0
    ensures PageCeil(addr) == (addr & 0xFFFF_FFFF_FFFF_F000) + 0x1000
  {
  }

  lemma NextPageNotBelow(addr: bv64)
    requires addr & 0xFFF != 0 && addr <= 0xFFFF_FFFF_FFFF_F000
    ensures addr <= (addr & 0xFFFF_FFFF_FFFF_F000) + 0x1000
  {
  }

  lemma NextPageWithinPage(addr: bv64)
    requires addr & 0xFFF != 0 && addr <= 0xFFFF_FFFF_FFFF_F000
    ensures ((addr & 0xFFFF_FFFF_FFFF_F000) + 0x1000) - addr < 0x1000
  {
  }

  /** `ceil` lies in [addr, addr + PAGE_SIZE). */
  predicate InPageAbove(addr: bv64, ceil: bv64) {
    addr <= ceil && ceil - addr < PAGE_SIZE
  }

  lemma AlignedCeilInPage(addr: bv64)
    requires addr & 0xFFF == 0
    ensures InPageAbove(addr, PageCeil(addr))
  {
    PageCeilOfAligned(addr);
  }

  lemma UnalignedCeilInPage(addr: bv64)
    requires addr & 0xFFF != 0 && addr <= LAST_PAGE
    ensures InPageAbove(addr, PageCeil(addr))
  {
    PageCeilOfUnaligned(addr);
    NextPageNotBelow(addr);
    NextPageWithinPage(addr);
  }

  /** PAGE_CEIL(addr) lies in [addr, addr + PAGE_SIZE) unless `addr + 0xFFF`
      overflows. */
  lemma PageCeilBounds(addr: bv64)
    requires addr <= LAST_PAGE
    ensures addr <= PageCeil(addr) && PageCeil(addr) - addr < PAGE_SIZE
  {
    if addr & 0xFFF == 0 {
      AlignedCeilInPage(addr);
    } else {
      UnalignedCeilInPage(addr);
    }
  }

  /** When `addr + 0xFFF` overflows, PAGE_CEIL(addr) wraps around to 0. */
  lemma PageCeilWraps(addr: bv64)
    requires addr > LAST_PAGE
    ensures PageCeil(addr) == 0
  {
  }

  /** The four table indices and the page offset reassemble every canonical
      lower-half address (below 2^48). */
  lemma IndicesReassemble(addr: bv64)
    requires addr < 1 << 48
    ensures addr == (Index(4, addr) << 39) | (Index(3, addr) << 30) | (Index(2, addr) << 21)
                    | (Index(1, addr) << 12) | PageOffset(addr)
  {
  }

  // ---------------------------------------------------------------------------
  // The entry's two fields
  // ---------------------------------------------------------------------------

  /** PHYS_MASK: bits 12..51 hold the physical frame address. */
  const PHYS_MASK: bv64 := 0x000F_FFFF_FFFF_F000

  /** A frame address set_frame_base accepts: no bit outside PHYS_MASK. */
  predicate FitsFrame(base: bv64) {
    base & 0x000F_FFFF_FFFF_F000 == base
  }

  /** Flags set_flags accepts: no bit inside PHYS_MASK. */
  predicate FitsFlags(flags: bv64) {
    flags & 0xFFF0_0000_0000_0FFF == flags
  }

  /** The literals above are PHYS_MASK and ~PHYS_MASK. */
  lemma PhysMaskConstants()
    ensures PHYS_MASK == 0x000F_FFFF_FFFF_F000 && !PHYS_MASK == 0xFFF0_0000_0000_0FFF
  {
  }

  /** The frame-address field of an entry word (what frame_base() returns). */
  function FrameOf(word: bv64): bv64 {
    word & 0x000F_FFFF_FFFF_F000
  }

  /** PHYS_FLAGS(word): the bits of `word` outside the frame-address field. */
  function PhysFlags(word: bv64): bv64 {
    word & 0xFFF0_0000_0000_0FFF
  }

  /** Each field only holds bits of its own part of the word. */
  lemma FieldsFit(word: bv64)
    ensures FitsFrame(FrameOf(word)) && FitsFlags(PhysFlags(word))
  {
  }

  /** The two fields partition the word. */
  lemma FieldsJoin(word: bv64)
    ensures FrameOf(word) | PhysFlags(word) == word
  {
  }

  /** `word |= bits` */
  function SetBits(word: bv64, bits: bv64): bv64 {
    word | bits
  }

  /** `word &= ~bits` */
  function ClearBits(word: bv64, bits: bv64): bv64 {
    word & !bits
  }

  /** `word &= bits` */
  function KeepBits(word: bv64, bits: bv64): bv64 {
    word & bits
  }

  /** The word after set_frame_base(base): `m_raw &= ~PHYS_MASK; m_raw |= base`. */
  function WithFrameBase(word: bv64, base: bv64): bv64
    requires FitsFrame(base)
  {
    SetBits(ClearBits(word, 0x000F_FFFF_FFFF_F000), base)
  }

  /** The word after set_flags(flags): `m_raw &= PHYS_MASK; m_raw |= flags`. */
  function WithFlags(word: bv64, flags: bv64): bv64
    requires FitsFlags(flags)
  {
    SetBits(KeepBits(word, 0x000F_FFFF_FFFF_F000), flags)
  }

  // Each of the following bit-vector facts is stated on the unfolded words and
  // then lifted to the field functions in a lemma of its own.

  lemma FrameBaseLandsInFrame(word: bv64, base: bv64)
    requires FitsFrame(base)
    ensures ((word & 0xFFF0_0000_0000_0FFF) | base) & 0x000F_FFFF_FFFF_F000 == base
  {
  }

  lemma FrameBaseLeavesFlagBits(word: bv64, base: bv64)
    requires FitsFrame(base)
    ensures ((word & 0xFFF0_0000_0000_0FFF) | base) & 0xFFF0_0000_0000_0FFF
            == word & 0xFFF0_0000_0000_0FFF
  {
  }

  lemma FlagsLandInFlags(word: bv64, flags: bv64)
    requires FitsFlags(flags)
    ensures ((word & 0x000F_FFFF_FFFF_F000) | flags) & 0xFFF0_0000_0000_0FFF == flags
  {
  }

  lemma FlagsLeaveFrameBits(word: bv64, flags: bv64)
    requires FitsFlags(flags)
    ensures ((word & 0x000F_FFFF_FFFF_F000) | flags) & 0x000F_FFFF_FFFF_F000
            == word & 0x000F_FFFF_FFFF_F000
  {
  }

  /** set_frame_base(base) makes frame_base() read back `base`. */
  lemma WithFrameBaseSetsFrame(word: bv64, base: bv64)
    requires FitsFrame(base)
    ensures FrameOf(WithFrameBase(word, base)) == base
  {
    FrameBaseLandsInFrame(word, base);
  }

  /** set_frame_base(base) leaves the flag bits as they were. */
  lemma WithFrameBaseKeepsFlags(word: bv64, base: bv64)
    requires FitsFrame(base)
    ensures PhysFlags(WithFrameBase(word, base)) == PhysFlags(word)
  {
    FrameBaseLeavesFlagBits(word, base);
  }

  /** set_flags(flags) makes the flag bits read back `flags`. */
  lemma WithFlagsSetsFlags(word: bv64, flags: bv64)
    requires FitsFlags(flags)
    ensures PhysFlags(WithFlags(word, flags)) == flags
  {
    FlagsLandInFlags(word, flags);
  }

  /** set_flags(flags) leaves frame_base() as it was. */
  lemma WithFlagsKeepsFrame(word: bv64, flags: bv64)
    requires FitsFlags(flags)
    ensures FrameOf(WithFlags(word, flags)) == FrameOf(word)
  {
    FlagsLeaveFrameBits(word, flags);
  }

  lemma FlagsOverFrameBase(word: bv64, base: bv64, flags: bv64)
    requires FitsFrame(base)
    ensures (((word & 0xFFF0_0000_0000_0FFF) | base) & 0x000F_FFFF_FFFF_F000) | flags
            == base | flags
  {
  }

  lemma FrameBaseOverFlags(word: bv64, base: bv64, flags: bv64)
    requires FitsFlags(flags)
    ensures (((word & 0x000F_FFFF_FFFF_F000) | flags) & 0xFFF0_0000_0000_0FFF) | base
            == base | flags
  {
  }

  lemma FlagsAfterFrameBase(word: bv64, base: bv64, flags: bv64)
    requires FitsFrame(base)
    requires FitsFlags(flags)
    ensures WithFlags(WithFrameBase(word, base), flags) == base | flags
  {
    FlagsOverFrameBase(word, base, flags);
  }

  lemma FrameBaseAfterFlags(word: bv64, base: bv64, flags: bv64)
    requires FitsFrame(base)
    requires FitsFlags(flags)
    ensures WithFrameBase(WithFlags(word, flags), base) == base | flags
  {
    FrameBaseOverFlags(word, base, flags);
  }

  /** Setting the frame base and setting the flags commute: in either order
      the word ends up as `base | flags`, whatever it held before. */
  lemma FrameBaseAndFlagsCommute(word: bv64, base: bv64, flags: bv64)
    requires FitsFrame(base)
    requires FitsFlags(flags)
    ensures WithFlags(WithFrameBase(word, base), flags) == base | flags
    ensures WithFrameBase(WithFlags(word, flags), base) == base | flags
  {
    FlagsAfterFrameBase(word, base, flags);
    FrameBaseAfterFlags(word, base, flags);
  }

  // ---------------------------------------------------------------------------
  // Single-bit updates (set_bit)
  // ---------------------------------------------------------------------------

  /** The bits of `bits` are not all clear in `word` (the `m_raw & flag` tests). */
  predicate HasBits(word: bv64, bits: bv64) {
    word & bits != 0
  }

  /** `before` and `after` agree on every bit outside `bits`. */
  predicate SameOutside(before: bv64, after: bv64, bits: bv64) {
    after & !bits == before & !bits
  }

  /** The word after set_bit(bit, value). */
  function WithBit(word: bv64, bit: bv64, value: bool): bv64 {
    if value then SetBits(word, bit) else ClearBits(word, bit)
  }

  lemma SetBitsKeepsOthers(word: bv64, bits: bv64)
    ensures SameOutside(word, SetBits(word, bits), bits)
  {
  }

  lemma ClearBitsKeepsOthers(word: bv64, bits: bv64)
    ensures SameOutside(word, ClearBits(word, bits), bits)
  {
  }

  lemma SetBitsTurnsOn(word: bv64, bit: bv64)
    requires bit != 0
    ensures HasBits(SetBits(word, bit), bit)
  {
  }

  lemma ClearBitsTurnsOff(word: bv64, bit: bv64)
    ensures !HasBits(ClearBits(word, bit), bit)
  {
  }

  /** set_bit(bit, value) makes the given bit read back `value` and leaves
      every other bit of the word as it was. */
  lemma WithBitChangesOnlyBit(word: bv64, bit: bv64, value: bool)
    requires bit != 0
    ensures HasBits(WithBit(word, bit, value), bit) == value
    ensures SameOutside(word, WithBit(word, bit, value), bit)
  {
    if value {
      SetBitsTurnsOn(word, bit);
      SetBitsKeepsOthers(word, bit);
    } else {
      ClearBitsTurnsOff(word, bit);
      ClearBitsKeepsOthers(word, bit);
    }
  }

  /** Two words that agree outside a bit lying outside PHYS_MASK have the same
      frame field. */
  lemma AgreeOutsideKeepsFrame(before: bv64, after: bv64, bit: bv64)
    requires SameOutside(before, after, bit)
    requires FitsFlags(bit)
    ensures FrameOf(after) == FrameOf(before)
  {
  }

  // ---------------------------------------------------------------------------
  // Flag bits
  // ---------------------------------------------------------------------------

  /** PageTableEntry::Flags */
  datatype Flag = Present | ReadWrite | User | Accessed | Dirty | Huge | Global | NoExecute

  /** The flag's bit: P=0, R/W=1, U/S=2, A=5, D=6, PS=7, G=8 and XD=63. */
  function Bit(f: Flag): bv64 {
    match f
    case Present => 0x1
    case ReadWrite => 0x2
    case User => 0x4
    case Accessed => 0x20
    case Dirty => 0x40
    case Huge => 0x80
    case Global => 0x100
    case NoExecute => 0x8000_0000_0000_0000
  }

  /** The bit positions, as `1 << n` in the enum. */
  lemma BitPositions()
    ensures Bit(Present) == 1 << 0 && Bit(ReadWrite) == 1 << 1 && Bit(User) == 1 << 2
    ensures Bit(Accessed) == 1 << 5 && Bit(Dirty) == 1 << 6 && Bit(Huge) == 1 << 7
    ensures Bit(Global) == 1 << 8 && Bit(NoExecute) == 1 << 63
  {
  }

  /** Every flag bit lies outside the frame-address field, so set_flags
      accepts it. */
  lemma FlagOutsidePhysMask(f: Flag)
    ensures FitsFlags(Bit(f)) && Bit(f) != 0
  {
  }

  /** A flag write reads back as written, leaves every other bit alone, and
      so never moves the frame address. */
  lemma FlagWrite(word: bv64, f: Flag, value: bool)
    ensures HasBits(WithBit(word, Bit(f), value), Bit(f)) == value
    ensures SameOutside(word, WithBit(word, Bit(f), value), Bit(f))
    ensures FrameOf(WithBit(word, Bit(f), value)) == FrameOf(word)
  {
    FlagOutsidePhysMask(f);
    WithBitChangesOnlyBit(word, Bit(f), value);
    AgreeOutsideKeepsFrame(word, WithBit(word, Bit(f), value), Bit(f));
  }

  /** The zero word has no flag set and no frame address. */
  lemma ZeroWordIsEmpty(f: Flag)
    ensures !HasBits(0, Bit(f)) && FrameOf(0) == 0
  {
  }

  // ---------------------------------------------------------------------------
  // PageTableEntry
  // ---------------------------------------------------------------------------

  class PageTableEntry {
    /** m_raw: the 64-bit entry word. */
    var raw: bv64

    /** raw(): the frame field joined with the flag bits. */
    function Raw(): (r: bv64)
      reads this
      ensures r == FrameBase() | PhysFlags(raw)
    {
      FieldsJoin(raw);
      raw
    }

    /** frame_base() */
    function FrameBase(): bv64
      reads this
    {
      FrameOf(raw)
    }

    /** set_frame_base: a base with bits outside PHYS_MASK is a fatal error,
        reported here as `ok == false` with the word untouched. */
    method SetFrameBase(base: bv64) returns (ok: bool)
      modifies this
      ensures ok <==> FitsFrame(base)
      ensures ok ==> raw == WithFrameBase(old(raw), base)
      ensures ok ==> FrameBase() == base && PhysFlags(raw) == PhysFlags(old(raw))
      ensures !ok ==> raw == old(raw)
    {
      ok := FitsFrame(base);
      if !ok {
        return;
      }
      ghost var before := raw;
      WithFrameBaseSetsFrame(before, base);
      WithFrameBaseKeepsFlags(before, base);
      raw := ClearBits(raw, 0x000F_FFFF_FFFF_F000);
      raw := SetBits(raw, base);
    }

    /** set_flags: flags with bits inside PHYS_MASK are a fatal error,
        reported here as `ok == false` with the word untouched. */
    method SetFlags(pageFlags: bv64) returns (ok: bool)
      modifies this
      ensures ok <==> FitsFlags(pageFlags)
      ensures ok ==> raw == WithFlags(old(raw), pageFlags)
      ensures ok ==> PhysFlags(raw) == pageFlags && FrameBase() == old(FrameBase())
      ensures !ok ==> raw == old(raw)
    {
      ok := FitsFlags(pageFlags);
      if !ok {
        return;
      }
      ghost var before := raw;
      WithFlagsSetsFlags(before, pageFlags);
      WithFlagsKeepsFrame(before, pageFlags);
      raw := KeepBits(raw, 0x000F_FFFF_FFFF_F000);
      raw := SetBits(raw, pageFlags);
    }

    /** clear() */
    method Clear()
      modifies this
      ensures raw == 0 && FrameBase() == 0
      ensures !IsPresent() && !IsWritable() && !IsUser()
      ensures !IsHuge() && !IsGlobal() && !IsExecuteDisabled()
    {
      raw := 0;
      ZeroWordIsEmpty(Present);
      ZeroWordIsEmpty(ReadWrite);
      ZeroWordIsEmpty(User);
      ZeroWordIsEmpty(Huge);
      ZeroWordIsEmpty(Global);
      ZeroWordIsEmpty(NoExecute);
    }

    predicate IsPresent() reads this { HasBits(raw, Bit(Present)) }
    predicate IsWritable() reads this { HasBits(raw, Bit(ReadWrite)) }
    predicate IsUser() reads this { HasBits(raw, Bit(User)) }
    predicate IsHuge() reads this { HasBits(raw, Bit(Huge)) }
    predicate IsGlobal() reads this { HasBits(raw, Bit(Global)) }
    predicate IsExecuteDisabled() reads this { HasBits(raw, Bit(NoExecute)) }

    method SetPresent(b: bool)
      modifies this
      ensures raw == WithBit(old(raw), Bit(Present), b)
      ensures SameOutside(old(raw), raw, Bit(Present))
      ensures IsPresent() == b && FrameBase() == old(FrameBase())
    {
      FlagWrite(raw, Present, b);
      SetBit(Bit(Present), b);
    }

    method SetWritable(b: bool)
      modifies this
      ensures raw == WithBit(old(raw), Bit(ReadWrite), b)
      ensures SameOutside(old(raw), raw, Bit(ReadWrite))
      ensures IsWritable() == b && FrameBase() == old(FrameBase())
    {
      FlagWrite(raw, ReadWrite, b);
      SetBit(Bit(ReadWrite), b);
    }

    method SetUser(b: bool)
      modifies this
      ensures raw == WithBit(old(raw), Bit(User), b)
      ensures SameOutside(old(raw), raw, Bit(User))
      ensures IsUser() == b && FrameBase() == old(FrameBase())
    {
      FlagWrite(raw, User, b);
      SetBit(Bit(User), b);
    }

    method SetHuge(b: bool)
      modifies this
      ensures raw == WithBit(old(raw), Bit(Huge), b)
      ensures SameOutside(old(raw), raw, Bit(Huge))
      ensures IsHuge() == b && FrameBase() == old(FrameBase())
    {
      FlagWrite(raw, Huge, b);
      SetBit(Bit(Huge), b);
    }

    method SetGlobal(b: bool)
      modifies this
      ensures raw == WithBit(old(raw), Bit(Global), b)
      ensures SameOutside(old(raw), raw, Bit(Global))
      ensures IsGlobal() == b && FrameBase() == old(FrameBase())
    {
      FlagWrite(raw, Global, b);
      SetBit(Bit(Global), b);
    }

    method SetExecuteDisabled(b: bool)
      modifies this
      ensures raw == WithBit(old(raw), Bit(NoExecute), b)
      ensures SameOutside(old(raw), raw, Bit(NoExecute))
      ensures IsExecuteDisabled() == b && FrameBase() == old(FrameBase())
    {
      FlagWrite(raw, NoExecute, b);
      SetBit(Bit(NoExecute), b);
    }

    /** set_bit(bit, value): `m_raw |= bit` or `m_raw &= ~bit`. */
    method SetBit(bit: bv64, value: bool)
      modifies this
      ensures raw == WithBit(old(raw), bit, value)
    {
      if value {
        raw := SetBits(raw, bit);
      } else {
        raw := ClearBits(raw, bit);
      }
    }
  }
}
