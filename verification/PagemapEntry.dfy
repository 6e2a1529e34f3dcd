/** The 64-bit entries of /proc/pid/pagemap: how they are packed, and the two userspace
    decoders that unpack them. */
module PagemapEntry {

  const PM_PFRAME_MASK: bv64 := 0x7F_FFFF_FFFF_FFFF
  const PM_SOFT_DIRTY: bv64 := 1 << 55
  const PM_MMAP_EXCLUSIVE: bv64 := 1 << 56
  const PM_UFFD_WP: bv64 := 1 << 57
  const PM_GUARD_REGION: bv64 := 1 << 58
  const PM_FILE: bv64 := 1 << 61
  const PM_SWAP: bv64 := 1 << 62
  const PM_PRESENT: bv64 := 1 << 63

  /** Swap types take the low MAX_SWAPFILES_SHIFT = 5 bits of a frame. */
  const SWAP_STEP: bv64 := 32

  function MakePme(frame: bv64, flags: bv64): bv64 { (frame & PM_PFRAME_MASK) | flags }

  /** Addition of machine words. */
  function Plus(a: bv64, b: bv64): bv64 { a + b }

  function Bit(b: bool, mask: bv64): bv64 { if b then mask else 0 }

  /** The flags of an entry. */
  datatype Flags = Flags(softDirty: bool, exclusive: bool, uffdWp: bool, guard: bool,
                         file: bool, swap: bool, present: bool)

  function FlagBits(softDirty: bool, exclusive: bool, uffdWp: bool, guard: bool,
                    file: bool, swap: bool, present: bool): bv64
  {
    Bit(softDirty, PM_SOFT_DIRTY) | Bit(exclusive, PM_MMAP_EXCLUSIVE) | Bit(uffdWp, PM_UFFD_WP)
    | Bit(guard, PM_GUARD_REGION) | Bit(file, PM_FILE) | Bit(swap, PM_SWAP) | Bit(present, PM_PRESENT)
  }

  function Pack(frame: bv64, f: Flags): bv64 {
    MakePme(frame, FlagBits(f.softDirty, f.exclusive, f.uffdWp, f.guard, f.file, f.swap, f.present))
  }

  /** The frame field of an entry, or of a frame: its low 55 bits. */
  function Frame(entry: bv64): bv64 { entry & PM_PFRAME_MASK }

  /** A frame below 2^55 fits the field. */
  lemma FrameFits(frame: bv64)
    requires frame <= PM_PFRAME_MASK
    ensures Frame(frame) == frame
  {
  }

  function Unpack(entry: bv64): Flags {
    Flags(entry & PM_SOFT_DIRTY != 0, entry & PM_MMAP_EXCLUSIVE != 0, entry & PM_UFFD_WP != 0,
          entry & PM_GUARD_REGION != 0, entry & PM_FILE != 0, entry & PM_SWAP != 0, entry & PM_PRESENT != 0)
  }

  lemma PackBits(frame: bv64, sd: bool, ex: bool, wp: bool, guard: bool, file: bool, swap: bool, present: bool)
    ensures var e := MakePme(frame, FlagBits(sd, ex, wp, guard, file, swap, present));
      && Unpack(e) == Flags(sd, ex, wp, guard, file, swap, present)
      && Frame(e) == Frame(frame) && Reserved(e) == 0
  {
  }

  function BitAt(entry: bv64, position: bv6): bool { (entry >> position) & 1 == 1 }

  /** Where each flag stands in an entry. */
  lemma BitPositions(entry: bv64)
    ensures var f := Unpack(entry);
      && f.softDirty == BitAt(entry, 55) && f.exclusive == BitAt(entry, 56) && f.uffdWp == BitAt(entry, 57)
      && f.guard == BitAt(entry, 58) && f.file == BitAt(entry, 61) && f.swap == BitAt(entry, 62)
      && f.present == BitAt(entry, 63)
  {
  }

  /** Bits 59 and 60. */
  function Reserved(entry: bv64): bv64 { (entry >> 59) & 3 }

  /** Entries decode uniquely: the flags and the low 55 bits of the frame come back, and bits
      59 and 60 are zero. */
  lemma PackDecodes(frame: bv64, f: Flags)
    ensures Unpack(Pack(frame, f)) == f
    ensures Frame(Pack(frame, f)) == Frame(frame)
    ensures Reserved(Pack(frame, f)) == 0
  {
    hide MakePme, FlagBits, Unpack, Frame, Reserved;
    PackBits(frame, f.softDirty, f.exclusive, f.uffdWp, f.guard, f.file, f.swap, f.present);
  }

  /** The frame of a swapped page: the swap type below the offset. */
  function SwapFrame(swpType: bv64, offset: bv64): bv64 { swpType | (offset << 5) }

  function SwapType(frame: bv64): bv64 { frame & 31 }

  function SwapOffset(frame: bv64): bv64 { frame >> 5 }

  /** The offset field has 50 bits. */
  function Low50(offset: bv64): bv64 { offset & 0x3_FFFF_FFFF_FFFF }

  /** Type and offset come back from the frame field, the offset within its 50 bits. */
  lemma SwapFrameDecodes(swpType: bv64, offset: bv64)
    requires swpType < 32
    ensures SwapType(Frame(SwapFrame(swpType, offset))) == swpType
    ensures SwapOffset(Frame(SwapFrame(swpType, offset))) == Low50(offset)
  {
  }

  /** Stepping the frame by one offset never disturbs the type. */
  lemma SwapFrameStep(swpType: bv64, offset: bv64)
    requires swpType < 32
    ensures Plus(SwapFrame(swpType, offset), SWAP_STEP) == SwapFrame(swpType, Plus(offset, 1))
  {
  }

  /** The decoder of dirty_trace_v2: bit 63, then the low 55 bits. */
  function DecodeMasked(entry: bv64): bv64 {
    if entry & (1 << 63) == 0 then 0 else entry & ((1 << 55) - 1)
  }

  /** The decoder of malloc_user: a shift, then a hexadecimal mask. */
  function DecodeShifted(entry: bv64): bv64 {
    if (entry >> 63) & 1 == 1 then entry & 0x7FFFFFFFFFFFFF else 0
  }

  lemma DecodersAgree(entry: bv64)
    ensures DecodeMasked(entry) == DecodeShifted(entry)
    ensures DecodeMasked(entry) == if entry & PM_PRESENT != 0 then entry & PM_PFRAME_MASK else 0
  {
  }
}
