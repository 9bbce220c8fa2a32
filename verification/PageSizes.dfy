/** What a TLB entry maps, for each of the seven page sizes: the pages it covers, the half it takes,
    and the physical address it gives. */
module PageSizes {
  import opened Words
  import opened Bits
  import opened Translation

  /** The entry maps a pair of pages of `size` bytes: 4 KB to 16 MB, by factors of four. */
  predicate Sized(e: TlbEntry, size: nat) {
    && size in {0x1000, 0x4000, 0x1_0000, 0x4_0000, 0x10_0000, 0x40_0000, 0x100_0000}
    && e.pageMask == 2 * size - 0x2000
  }

  /** The exponent of a page size. */
  lemma SizePower(size: nat) returns (n: nat)
    requires size in {0x1000, 0x4000, 0x1_0000, 0x4_0000, 0x10_0000, 0x40_0000, 0x100_0000}
    ensures Pow2(n) == size && Pow2(n + 1) == 2 * size
  {
    PowersOfTwo();
    n := if size == 0x1000 then 12 else if size == 0x4000 then 14 else if size == 0x1_0000 then 16
         else if size == 0x4_0000 then 18 else if size == 0x10_0000 then 20 else if size == 0x40_0000 then 22 else 24;
  }

  lemma Masks(e: TlbEntry, size: nat)
    requires Sized(e, size)
    ensures PairMask(e) == 2 * size - 1 && OffsetMask(e) == size - 1
  {
  }

  // ---------------------------------------------------------------- what an entry maps

  /** An entry covers the addresses of its pair of pages, for its own ASID or, when both halves are
      global, for all. */
  lemma EntryCovers(e: TlbEntry, size: nat, v: u32, asid: nat)
    requires Sized(e, size)
    ensures Matches(e, v, asid) <==>
      && v / (2 * size) == e.entryHi / (2 * size)
      && ((e.entryLo0 % 2 == 1 && e.entryLo1 % 2 == 1) || e.entryHi % 0x100 == asid)
  {
    Masks(e, size);
    var n := SizePower(size);
    LowBits(n + 1, v);
    LowBits(n + 1, e.entryHi);
    SameQuotient(v, e.entryHi, 2 * size);
    hide And, Pow2, PairMask, Sized;
  }

  lemma SameQuotient(v: nat, w: nat, d: nat)
    requires d > 0
    ensures v - v % d == w - w % d <==> v / d == w / d
  {
    assert v == d * (v / d) + v % d && w == d * (w / d) + w % d;
    if v / d != w / d {
      MulGap(d, v / d - w / d);
      assert d * (v / d - w / d) == d * (v / d) - d * (w / d);
    }
  }

  /** The address bit above the offset chooses the half; its V and D bits decide the fault; and its
      frame, rounded down to the page size, is where the page lies. */
  lemma EntryMaps(e: TlbEntry, size: nat, v: u32, isStore: bool)
    requires Sized(e, size)
    ensures var lo := if v / size % 2 == 1 then e.entryLo1 else e.entryLo0;
      var frame := lo / 0x40 % 0x100_0000 * 0x1000;
      EntryTranslation(e, v, isStore) ==
        if lo / 2 % 2 == 0 then Fault(TlbInvalid)
        else if isStore && lo / 4 % 2 == 0 then Fault(TlbModified)
        else Mapped((frame / size * size + v % size) % 0x2000_0000)
  {
    Masks(e, size);
    var n := SizePower(size);
    LowBits(n, v);
    OneBit(n, v);
    var lo := if v / size % 2 == 1 then e.entryLo1 else e.entryLo0;
    var frame := lo / 0x40 % 0x100_0000 * 0x1000;
    LowBits(n, frame);
    Rounded(frame, size);
    hide And, Pow2, PairMask, OffsetMask, Sized;
  }

  lemma Rounded(x: nat, d: nat)
    requires d > 0
    ensures x - x % d == x / d * d
  {
  }

  /** A mapped address is translated by the first entry that covers it. */
  lemma TranslatesBy(c: Context, vaddr: u64, isStore: bool, k: nat, size: nat)
    requires k < |c.tlb| && Sized(c.tlb[k], size) && Matches(c.tlb[k], vaddr % TWO_TO_32, c.asid)
    requires forall j :: 0 <= j < k ==> !Matches(c.tlb[j], vaddr % TWO_TO_32, c.asid)
    requires var v := vaddr % TWO_TO_32;
      v < 0x8000_0000 || (c.mode <= 1 && 0xC000_0000 <= v < 0xE000_0000) || (c.mode == 0 && 0xE000_0000 <= v)
    ensures var v := vaddr % TWO_TO_32;
      var lo := if v / size % 2 == 1 then c.tlb[k].entryLo1 else c.tlb[k].entryLo0;
      Translate(c, vaddr, isStore) ==
        if lo / 2 % 2 == 0 then Fault(TlbInvalid)
        else if isStore && lo / 4 % 2 == 0 then Fault(TlbModified)
        else Mapped((lo / 0x40 % 0x100_0000 * 0x1000 / size * size + v % size) % 0x2000_0000)
  {
    var v: u32 := vaddr % TWO_TO_32;
    EntryMaps(c.tlb[k], size, v, isStore);
    hide Matches, EntryTranslation, Sized;
    assert FirstMatch(c.tlb, v, c.asid, 0) == k;
  }

  /** The segments: user mode has the lower 2 GB, supervisor mode also the 512 MB from 0xC0000000,
      and kernel mode everything; all else is an address error. */
  lemma Segments(c: Context, vaddr: u64, isStore: bool)
    ensures Translate(c, vaddr, isStore) == Fault(AddressError) <==>
      var v := vaddr % TWO_TO_32;
      (c.mode == 1 && !(v < 0x8000_0000 || 0xC000_0000 <= v < 0xE000_0000)) || (c.mode >= 2 && v >= 0x8000_0000)
    ensures Translate(c, vaddr, isStore) == Fault(TlbMiss) <==>
      var v := vaddr % TWO_TO_32;
      && Translate(c, vaddr, isStore) != Fault(AddressError) && !(0x8000_0000 <= v < 0xC000_0000)
      && forall j :: 0 <= j < |c.tlb| ==> !Matches(c.tlb[j], v, c.asid)
  {
    hide Matches, And, OffsetMask;
  }
}
