// Stack walking over one image or over a list of loaded images. The DWARF
// call-frame step (`ElfDebug::next_frame`, which reads guest memory) is an
// unknown function from the image's bytes and a register file to the caller's
// register file, or to nothing when no caller can be found.

module Unwind {
  import opened ElfFormat
  import opened ElfImage

  // ---------------------------------------------------------------------
  // Registers
  // ---------------------------------------------------------------------

  // DWARF register numbers of the x86-64 System V psABI (figure 3.36).
  const RAX: nat := 0
  const RDX: nat := 1
  const RCX: nat := 2
  const RBX: nat := 3
  const RSI: nat := 4
  const RDI: nat := 5
  const RBP: nat := 6
  const RSP: nat := 7
  const R8: nat := 8
  const R9: nat := 9
  const R10: nat := 10
  const R11: nat := 11
  const R12: nat := 12
  const R13: nat := 13
  const R14: nat := 14
  const R15: nat := 15
  const RETURN_ADDRESS: nat := 16
  const DWARF_MAX: nat := 17

  /** The `vsize_t regs[DwarfReg::MAX]` register file, indexed by DWARF number. */
  type Regs = r: seq<u64> | |r| == DWARF_MAX witness seq(17, _ => 0)

  /** The general-purpose registers of `struct kvm_regs`. */
  datatype KvmRegs = KvmRegs(
    rax: u64, rbx: u64, rcx: u64, rdx: u64, rsi: u64, rdi: u64, rsp: u64, rbp: u64,
    r8: u64, r9: u64, r10: u64, r11: u64, r12: u64, r13: u64, r14: u64, r15: u64,
    rip: u64, rflags: u64)

  /**
   * kvm_to_dwarf_regs as written: slot RCX is filled from `rdx`, so the
   * guest's rcx never reaches the unwinder.
   */
  function DwarfRegsOf(k: KvmRegs): Regs
  {
    [k.rax, k.rdx, k.rdx, k.rbx, k.rsi, k.rdi, k.rbp, k.rsp,
     k.r8, k.r9, k.r10, k.r11, k.r12, k.r13, k.r14, k.r15, k.rip]
  }

  /**
   * The conversion puts the instruction pointer in the return-address slot
   * and the stack and frame pointers in theirs, and the result does not
   * depend on rcx (nor on rflags).
   */
  lemma DwarfRegsIgnoreRcx(k: KvmRegs, rcx: u64, rflags: u64)
    ensures DwarfRegsOf(k)[RETURN_ADDRESS] == k.rip
    ensures DwarfRegsOf(k)[RSP] == k.rsp && DwarfRegsOf(k)[RBP] == k.rbp
    ensures DwarfRegsOf(k)[RCX] == k.rdx == DwarfRegsOf(k)[RDX]
    ensures DwarfRegsOf(k.(rcx := rcx, rflags := rflags)) == DwarfRegsOf(k)
  {
  }

  /** ElfDebug::next_frame over the given image bytes (and a fixed guest memory). */
  type Unwinder = (seq<byte>, Regs) -> Option<Regs>

  // ---------------------------------------------------------------------
  // What the walks know of an image
  // ---------------------------------------------------------------------

  /** The parts of a parsed image a stack walk reads. */
  datatype ImageView = ImageView(dyn: bool, loadAddr: u64, text: Result<Range>, data: seq<byte>)

  /**
   * The registers handed to the unwinder: the unwinder expects a return
   * address relative to the load address of a PIE image.
   */
  function Handed(v: ImageView, regs: Regs): Regs
  {
    if v.dyn then regs[RETURN_ADDRESS := Sub64(regs[RETURN_ADDRESS], v.loadAddr)] else regs
  }

  /** The unwinder sees the recorded address minus the load address for PIE images, and nothing else changes. */
  lemma HandedIsRelative(v: ImageView, regs: Regs)
    ensures v.dyn ==> Handed(v, regs)[RETURN_ADDRESS] == Sub64(regs[RETURN_ADDRESS], v.loadAddr)
    ensures v.dyn ==> Add64(Handed(v, regs)[RETURN_ADDRESS], v.loadAddr) == regs[RETURN_ADDRESS]
    ensures !v.dyn ==> Handed(v, regs) == regs
    ensures forall j :: 0 <= j < DWARF_MAX && j != RETURN_ADDRESS ==> Handed(v, regs)[j] == regs[j]
  {
    AddSub64(regs[RETURN_ADDRESS], v.loadAddr);
  }

  function Max(a: int, b: int): int
  {
    if a < b then b else a
  }

  // ---------------------------------------------------------------------
  // The walk over a single image
  // ---------------------------------------------------------------------

  /**
   * The return addresses the single-image get_stacktrace records from frame
   * `i` on: record the current one; stop after `numFrames` frames, when the
   * unwinder finds no caller, or when the caller's address leaves `.text`.
   */
  function Walk(v: ImageView, next: Unwinder, regs: Regs, i: nat, numFrames: nat): seq<u64>
    requires v.text.Ok?
    decreases numFrames - i
  {
    [regs[RETURN_ADDRESS]] +
    if i + 1 < numFrames then
      match next(v.data, Handed(v, regs))
      case None => []
      case Some(caller) =>
        if InRange(v.text.value, caller[RETURN_ADDRESS]) then Walk(v, next, caller, i + 1, numFrames) else []
    else []
  }

  /** One step of the walk: the current address, then the walk from the caller when it continues. */
  lemma WalkUnfold(v: ImageView, next: Unwinder, regs: Regs, i: nat, numFrames: nat)
    requires v.text.Ok?
    ensures var caller := next(v.data, Handed(v, regs));
      Walk(v, next, regs, i, numFrames) ==
        if i + 1 < numFrames && caller.Some? && InRange(v.text.value, caller.value[RETURN_ADDRESS])
        then [regs[RETURN_ADDRESS]] + Walk(v, next, caller.value, i + 1, numFrames)
        else [regs[RETURN_ADDRESS]]
  {
  }

  /** Whether the walk goes on from frame `i` to the caller the unwinder finds. */
  predicate Continues(v: ImageView, next: Unwinder, regs: Regs, i: nat, numFrames: nat)
    requires v.text.Ok?
  {
    i + 1 < numFrames && next(v.data, Handed(v, regs)).Some? &&
    InRange(v.text.value, next(v.data, Handed(v, regs)).value[RETURN_ADDRESS])
  }

  /**
   * Recording the current address either completes a walk that stops here
   * or leaves the walk from the caller still to be recorded.
   */
  lemma WalkAdvance(v: ImageView, next: Unwinder, regs: Regs, i: nat, numFrames: nat, done: seq<u64>, whole: seq<u64>)
    requires v.text.Ok?
    requires done + Walk(v, next, regs, i, numFrames) == whole
    ensures Continues(v, next, regs, i, numFrames) ==>
      done + [regs[RETURN_ADDRESS]] + Walk(v, next, next(v.data, Handed(v, regs)).value, i + 1, numFrames) == whole
    ensures !Continues(v, next, regs, i, numFrames) ==> done + [regs[RETURN_ADDRESS]] == whole
  {
    WalkUnfold(v, next, regs, i, numFrames);
  }

  /**
   * The walk records the starting address first, records at most
   * `max(1, numFrames - i)` addresses, and every address after the first
   * lies in `.text`.
   */
  lemma {:induction false} WalkBounds(v: ImageView, next: Unwinder, regs: Regs, i: nat, numFrames: nat)
    requires v.text.Ok?
    ensures var w := Walk(v, next, regs, i, numFrames);
      w != [] && w[0] == regs[RETURN_ADDRESS] && |w| <= Max(1, numFrames - i) &&
      forall k :: 1 <= k < |w| ==> InRange(v.text.value, w[k])
    decreases numFrames - i
  {
    if i + 1 < numFrames {
      match next(v.data, Handed(v, regs))
      case None =>
      case Some(caller) =>
        if InRange(v.text.value, caller[RETURN_ADDRESS]) {
          WalkBounds(v, next, caller, i + 1, numFrames);
        }
    }
  }

  /** The unwinder, given `regs` with its return address made relative, returns a caller at `ra`. */
  predicate StepsTo(v: ImageView, next: Unwinder, regs: Regs, ra: u64)
  {
    next(v.data, Handed(v, regs)).Some? && next(v.data, Handed(v, regs)).value[RETURN_ADDRESS] == ra
  }

  /** Some register file whose return address is `a` unwinds to a caller at `b`. */
  ghost predicate Linked(v: ImageView, next: Unwinder, a: u64, b: u64)
  {
    exists r: Regs :: r[RETURN_ADDRESS] == a && StepsTo(v, next, r, b)
  }

  /**
   * Consecutive recorded addresses are linked by the unwinder: each later
   * address is the return address the unwinder produced from a register
   * file whose return address was the one recorded before it.
   */
  lemma {:induction false} WalkSteps(v: ImageView, next: Unwinder, regs: Regs, i: nat, numFrames: nat)
    requires v.text.Ok?
    ensures var w := Walk(v, next, regs, i, numFrames);
      forall k :: 0 <= k < |w| - 1 ==> Linked(v, next, w[k], w[k + 1])
    decreases numFrames - i
  {
    var w := Walk(v, next, regs, i, numFrames);
    var res := next(v.data, Handed(v, regs));
    if i + 1 < numFrames && res.Some? && InRange(v.text.value, res.value[RETURN_ADDRESS]) {
      var caller := res.value;
      var rest := Walk(v, next, caller, i + 1, numFrames);
      WalkSteps(v, next, caller, i + 1, numFrames);
      WalkBounds(v, next, caller, i + 1, numFrames);
      assert w == [regs[RETURN_ADDRESS]] + rest;
      forall k | 0 <= k < |w| - 1
        ensures Linked(v, next, w[k], w[k + 1])
      {
        if k == 0 {
          assert StepsTo(v, next, regs, w[1]);
        } else {
          assert w[k] == rest[k - 1] && w[k + 1] == rest[k];
          assert Linked(v, next, rest[k - 1], rest[k]);
        }
      }
    }
  }

  // ---------------------------------------------------------------------
  // The walk over several images
  // ---------------------------------------------------------------------

  /** Whether an image is the one elf_with_addr_in_text stops at for `addr`. */
  predicate StopsAt(v: ImageView, addr: u64)
  {
    v.text.Fatal? || InRange(v.text.value, addr)
  }

  /**
   * elf_with_addr_in_text: the first image whose `.text` holds `addr`;
   * looking up `.text` in an image without one is fatal.
   */
  function ImageWithAddr(views: seq<ImageView>, addr: u64): (r: Result<Option<nat>>)
    ensures r.Ok? && r.value.Some? ==> r.value.value < |views|
  {
    match FirstMatch(views, (v: ImageView) => StopsAt(v, addr))
    case None => Ok(None)
    case Some(k) => if views[k].text.Fatal? then Fatal(views[k].text.error) else Ok(Some(k))
  }

  /** The image found holds the address, and every image before it has a `.text` that does not. */
  lemma ImageWithAddrIsFirst(views: seq<ImageView>, addr: u64)
    ensures ImageWithAddr(views, addr) == Ok(None) <==>
            forall m :: 0 <= m < |views| ==> views[m].text.Ok? && !InRange(views[m].text.value, addr)
    ensures ImageWithAddr(views, addr).Ok? && ImageWithAddr(views, addr).value.Some? ==>
            var k := ImageWithAddr(views, addr).value.value;
            k < |views| && views[k].text.Ok? && InRange(views[k].text.value, addr) &&
            forall m :: 0 <= m < k ==> views[m].text.Ok? && !InRange(views[m].text.value, addr)
  {
    FirstMatchSpec(views, (v: ImageView) => StopsAt(v, addr));
  }

  /**
   * The (return address, image index) pairs the multi-image get_stacktrace
   * records from frame `i` on: find the image holding the address (stop if
   * none), record the pair, and go on with the caller that image's
   * unwinder gives while fewer than `numFrames` frames are recorded.
   */
  function MultiWalk(views: seq<ImageView>, next: Unwinder, regs: Regs, i: nat, numFrames: nat): Result<seq<(u64, nat)>>
    decreases numFrames - i
  {
    match ImageWithAddr(views, regs[RETURN_ADDRESS])
    case Fatal(e) => Fatal(e)
    case Ok(None) => Ok([])
    case Ok(Some(k)) =>
      var rest :=
        if i + 1 < numFrames then
          match next(views[k].data, Handed(views[k], regs))
          case None => Ok([])
          case Some(caller) => MultiWalk(views, next, caller, i + 1, numFrames)
        else Ok([]);
      match rest
      case Fatal(e) => Fatal(e)
      case Ok(tail) => Ok([(regs[RETURN_ADDRESS], k)] + tail)
  }

  /** A walk's outcome with `done` recorded before it. */
  function After(done: seq<(u64, nat)>, rest: Result<seq<(u64, nat)>>): Result<seq<(u64, nat)>>
  {
    match rest
    case Fatal(e) => Fatal(e)
    case Ok(tail) => Ok(done + tail)
  }

  /** A lookup that fails ends the walk over several images with the lookup's error. */
  lemma MultiWalkFails(views: seq<ImageView>, next: Unwinder, regs: Regs, i: nat, numFrames: nat,
                       done: seq<(u64, nat)>, whole: Result<seq<(u64, nat)>>)
    requires After(done, MultiWalk(views, next, regs, i, numFrames)) == whole
    requires ImageWithAddr(views, regs[RETURN_ADDRESS]).Fatal?
    ensures whole == Fatal(ImageWithAddr(views, regs[RETURN_ADDRESS]).error)
  {
  }

  /** An address no image holds ends the walk over several images with what is recorded. */
  lemma MultiWalkEnds(views: seq<ImageView>, next: Unwinder, regs: Regs, i: nat, numFrames: nat,
                      done: seq<(u64, nat)>, whole: Result<seq<(u64, nat)>>)
    requires After(done, MultiWalk(views, next, regs, i, numFrames)) == whole
    requires ImageWithAddr(views, regs[RETURN_ADDRESS]) == Ok(None)
    ensures whole == Ok(done)
  {
    assert done + [] == done;
  }

  /**
   * An address image `k` holds is recorded with `k`; the walk then stops
   * when no frame remains or the unwinder finds no caller, and otherwise
   * goes on from the caller.
   */
  lemma MultiWalkRecords(views: seq<ImageView>, next: Unwinder, regs: Regs, i: nat, numFrames: nat,
                         done: seq<(u64, nat)>, whole: Result<seq<(u64, nat)>>, k: nat)
    requires After(done, MultiWalk(views, next, regs, i, numFrames)) == whole
    requires ImageWithAddr(views, regs[RETURN_ADDRESS]) == Ok(Some(k))
    ensures k < |views|
    ensures var caller := next(views[k].data, Handed(views[k], regs));
      !(i + 1 < numFrames && caller.Some?) ==> whole == Ok(done + [(regs[RETURN_ADDRESS], k)])
    ensures var caller := next(views[k].data, Handed(views[k], regs));
      i + 1 < numFrames && caller.Some? ==>
        After(done + [(regs[RETURN_ADDRESS], k)], MultiWalk(views, next, caller.value, i + 1, numFrames)) == whole
  {
    var frame := (regs[RETURN_ADDRESS], k);
    var caller := next(views[k].data, Handed(views[k], regs));
    if i + 1 < numFrames && caller.Some? {
      match MultiWalk(views, next, caller.value, i + 1, numFrames)
      case Fatal(_) =>
      case Ok(tail) =>
        assert done + ([frame] + tail) == done + [frame] + tail;
    } else {
      assert [frame] + [] == [frame];
    }
  }

  /** Each recorded pair names the first image whose `.text` holds the address. */
  predicate FirstHolder(views: seq<ImageView>, frame: (u64, nat))
  {
    frame.1 < |views| && views[frame.1].text.Ok? && InRange(views[frame.1].text.value, frame.0) &&
    forall m :: 0 <= m < frame.1 ==> views[m].text.Ok? && !InRange(views[m].text.value, frame.0)
  }

  /**
   * Every recorded pair names the first image holding its address, at most
   * `max(1, numFrames - i)` pairs are recorded, and nothing is recorded
   * when no image holds the starting address.
   */
  lemma {:induction false} MultiWalkBounds(views: seq<ImageView>, next: Unwinder, regs: Regs, i: nat, numFrames: nat)
    ensures var w := MultiWalk(views, next, regs, i, numFrames);
      w.Ok? ==> |w.value| <= Max(1, numFrames - i) && forall k :: 0 <= k < |w.value| ==> FirstHolder(views, w.value[k])
    ensures (forall m :: 0 <= m < |views| ==> views[m].text.Ok? && !InRange(views[m].text.value, regs[RETURN_ADDRESS])) ==>
              MultiWalk(views, next, regs, i, numFrames) == Ok([])
    decreases numFrames - i
  {
    ImageWithAddrIsFirst(views, regs[RETURN_ADDRESS]);
    match ImageWithAddr(views, regs[RETURN_ADDRESS])
    case Fatal(_) =>
    case Ok(None) =>
    case Ok(Some(k)) =>
      if i + 1 < numFrames {
        match next(views[k].data, Handed(views[k], regs))
        case None =>
        case Some(caller) =>
          MultiWalkBounds(views, next, caller, i + 1, numFrames);
      }
  }
}
