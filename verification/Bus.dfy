/** The system bus: the typed writes to memory and the notification that keeps the
    block cache from going stale. */
module SystemBus {
  import opened Words
  import opened Translation
  import opened PhysicalMemory
  import opened BlockCaching
  import opened Coherence

  /** The cache after `write8`, which invalidates a single byte. */
  ghost function AfterWrite8(cache: Contents, addr: nat): Contents
  {
    AfterInvalidate(cache, Physical(addr), 1)
  }

  /** The cache after `write16`; the byte-wise path notifies again. */
  ghost function AfterWrite16(cache: Contents, m: Memory, addr: nat): Contents
  {
    var c := AfterInvalidate(cache, Physical(addr), 2);
    if InRam(m, addr, 2) then c else AfterWrite8(AfterWrite8(c, addr), addr + 1)
  }

  ghost function AfterWrite32(cache: Contents, m: Memory, addr: nat): Contents
  {
    var c := AfterInvalidate(cache, Physical(addr), 4);
    if InRam(m, addr, 4) then c
    else AfterWrite8(AfterWrite8(AfterWrite8(AfterWrite8(c, addr), addr + 1), addr + 2), addr + 3)
  }

  ghost function AfterWrite64(cache: Contents, m: Memory, addr: nat, hi: u32): Contents
  {
    var c := AfterInvalidate(cache, Physical(addr), 8);
    if InRam(m, addr, 8) then c
    else AfterWrite32(AfterWrite32(c, m, addr), Write32(m, addr, hi), addr + 4)
  }

  lemma PhysicalTwice(addr: nat)
    ensures Physical(Physical(addr)) == Physical(addr)
  {
  }

  // ---------------------------------------------------------------- coherence of writes

  predicate SubCache(small: Contents, large: Contents) {
    forall i :: i in small ==> i in large && small[i] == large[i]
  }

  lemma SubCacheCoherent(small: Contents, large: Contents, c: Context, m: Memory)
    requires SubCache(small, large) && Coherent(large, c, m)
    ensures Coherent(small, c, m)
  {
    hide UpToDate;
  }

  lemma InvalidateShrinks(cache: Contents, p: nat, size: nat)
    ensures SubCache(AfterInvalidate(cache, p, size), cache)
  {
    hide Overlaps;
  }

  lemma Write8Shrinks(cache: Contents, addr: nat)
    ensures SubCache(AfterWrite8(cache, addr), cache)
  {
    InvalidateShrinks(cache, Physical(addr), 1);
  }

  lemma SubCacheTransitive(a: Contents, b: Contents, c: Contents)
    requires SubCache(a, b) && SubCache(b, c)
    ensures SubCache(a, c)
  {
  }

  lemma Write16Shrinks(cache: Contents, m: Memory, addr: nat)
    ensures SubCache(AfterWrite16(cache, m, addr), AfterInvalidate(cache, Physical(addr), 2))
  {
    var c0 := AfterInvalidate(cache, Physical(addr), 2);
    var c1 := AfterWrite8(c0, addr);
    Write8Shrinks(c0, addr);
    Write8Shrinks(c1, addr + 1);
    hide AfterWrite8, AfterInvalidate, InRam;
    SubCacheTransitive(AfterWrite8(c1, addr + 1), c1, c0);
  }

  lemma Write32Shrinks(cache: Contents, m: Memory, addr: nat)
    ensures SubCache(AfterWrite32(cache, m, addr), AfterInvalidate(cache, Physical(addr), 4))
  {
    var c0 := AfterInvalidate(cache, Physical(addr), 4);
    var c1 := AfterWrite8(c0, addr);
    var c2 := AfterWrite8(c1, addr + 1);
    var c3 := AfterWrite8(c2, addr + 2);
    var c4 := AfterWrite8(c3, addr + 3);
    Write8Shrinks(c0, addr);
    Write8Shrinks(c1, addr + 1);
    Write8Shrinks(c2, addr + 2);
    Write8Shrinks(c3, addr + 3);
    hide AfterWrite8, AfterInvalidate, InRam;
    SubCacheTransitive(c2, c1, c0);
    SubCacheTransitive(c3, c2, c0);
    SubCacheTransitive(c4, c3, c0);
  }

  /** On an aligned word the byte-wise notifications find nothing left to drop. */
  lemma AlignedWrite32(cache: Contents, m: Memory, p: nat)
    requires p % 4 == 0 && p < BUS_LIMIT
    ensures AfterWrite32(cache, m, p) == AfterInvalidate(cache, p, 4)
  {
    AlignedByte(cache, p, 0);
    AlignedByte(cache, p, 1);
    AlignedByte(cache, p, 2);
    AlignedByte(cache, p, 3);
    hide AfterWrite8, InRam, AfterInvalidate;
    assert Physical(p) == p;
  }

  lemma AlignedByte(cache: Contents, p: nat, k: nat)
    requires p % 4 == 0 && p < BUS_LIMIT && k < 4
    ensures var c := AfterInvalidate(cache, p, 4); AfterWrite8(c, p + k) == c
  {
    hide DirectMapped;
    assert Physical(p + k) == p + k;
  }

  lemma SettledWriteCoherent(was: Contents, now: Contents, c: Context, m: Memory, n: Memory, addr: nat, size: nat)
    requires Settled(m, addr, size) && size > 0 && Coherent(was, c, m) && ChangedOnly(m, n, addr, size)
    requires SubCache(now, AfterInvalidate(was, Physical(addr), size))
    ensures Coherent(now, c, n)
  {
    hide Coherent, ChangedOnly;
    WriteKeepsCoherence(was, c, m, n, addr, size);
    SubCacheCoherent(now, AfterInvalidate(was, addr, size), c, n);
  }

  /** A byte written to RDRAM, with its notification, leaves no stale block behind. */
  lemma Write8Coherent(cache: Contents, c: Context, m: Memory, addr: nat, value: u8)
    requires Settled(m, addr, 1) && Coherent(cache, c, m)
    ensures Coherent(AfterWrite8(cache, addr), c, Write8(m, addr, value))
  {
    Write8ChangesOnly(m, addr, value);
    hide Coherent, Write8, ChangedOnly;
    SettledWriteCoherent(cache, AfterWrite8(cache, addr), c, m, Write8(m, addr, value), addr, 1);
  }

  lemma Write16Coherent(cache: Contents, c: Context, m: Memory, addr: nat, value: u16)
    requires Settled(m, addr, 2) && Coherent(cache, c, m)
    ensures Coherent(AfterWrite16(cache, m, addr), c, Write16(m, addr, value))
  {
    Write16ChangesOnly(m, addr, value);
    Write16Shrinks(cache, m, addr);
    hide Coherent, Write16, ChangedOnly, AfterWrite16;
    SettledWriteCoherent(cache, AfterWrite16(cache, m, addr), c, m, Write16(m, addr, value), addr, 2);
  }

  lemma Write32Coherent(cache: Contents, c: Context, m: Memory, addr: nat, value: u32)
    requires Settled(m, addr, 4) && Coherent(cache, c, m)
    ensures Coherent(AfterWrite32(cache, m, addr), c, Write32(m, addr, value))
  {
    Write32ChangesOnly(m, addr, value);
    Write32Shrinks(cache, m, addr);
    hide Coherent, Write32, ChangedOnly, AfterWrite32;
    SettledWriteCoherent(cache, AfterWrite32(cache, m, addr), c, m, Write32(m, addr, value), addr, 4);
  }

  lemma Write64Coherent(cache: Contents, c: Context, m: Memory, addr: nat, value: u64)
    requires Settled(m, addr, 8) && Coherent(cache, c, m)
    ensures Coherent(AfterWrite64(cache, m, addr, value / 0x1_0000_0000), c, Write64(m, addr, value))
  {
    Write64ChangesOnly(m, addr, value);
    Write64Shrinks(cache, m, addr, value / 0x1_0000_0000);
    hide Coherent, Write64, ChangedOnly, AfterWrite64;
    SettledWriteCoherent(cache, AfterWrite64(cache, m, addr, value / 0x1_0000_0000), c, m,
                         Write64(m, addr, value), addr, 8);
  }

  lemma Write64Shrinks(cache: Contents, m: Memory, addr: nat, hi: u32)
    ensures SubCache(AfterWrite64(cache, m, addr, hi), AfterInvalidate(cache, Physical(addr), 8))
  {
    var c0 := AfterInvalidate(cache, Physical(addr), 8);
    var c1 := AfterWrite32(c0, m, addr);
    var c2 := AfterWrite32(c1, Write32(m, addr, hi), addr + 4);
    Write32Shrinks(c0, m, addr);
    InvalidateShrinks(c0, Physical(addr), 4);
    Write32Shrinks(c1, Write32(m, addr, hi), addr + 4);
    InvalidateShrinks(c1, Physical(addr + 4), 4);
    hide AfterWrite32, AfterInvalidate, InRam, Write32, Physical;
    SubCacheTransitive(c1, AfterInvalidate(c0, Physical(addr), 4), c0);
    SubCacheTransitive(c2, AfterInvalidate(c1, Physical(addr + 4), 4), c1);
    SubCacheTransitive(c2, c1, c0);
  }

  class Bus {
    var rdram: seq<u8>
    const cart: seq<u8>
    const pifRom: seq<u8>
    const cache: BlockCache

    function Mem(): Memory
      reads this
    {
      Memory(rdram, cart, pifRom)
    }

    constructor (size: nat, cart: seq<u8>, pifRom: seq<u8>, cache: BlockCache)
      ensures rdram == seq(size, _ => 0)
      ensures this.cart == cart && this.pifRom == pifRom && this.cache == cache
    {
      this.rdram := seq(size, _ => 0);
      this.cart := cart;
      this.pifRom := pifRom;
      this.cache := cache;
    }

    method NotifyMemoryWrite(paddr: nat, size: nat)
      requires cache.Valid()
      modifies cache`aliased, cache`count, cache.table
      ensures cache.Valid()
      ensures cache.Contents() ==
        if size == 0 then old(cache.Contents()) else AfterInvalidate(old(cache.Contents()), Physical(paddr), size)
    {
      if size == 0 {
        return;
      }
      if cache.count != 0 {
        cache.Invalidate(Physical(paddr), size);
      } else {
        assert cache.Contents() == map[];
      }
    }

    method Write8(addr: nat, value: u8)
      requires cache.Valid()
      modifies `rdram, cache`aliased, cache`count, cache.table
      ensures cache.Valid() && Mem() == PhysicalMemory.Write8(old(Mem()), addr, value)
      ensures cache.Contents() == AfterWrite8(old(cache.Contents()), addr)
    {
      PhysicalTwice(addr);
      hide AfterInvalidate, Physical;
      var paddr := Physical(addr);
      NotifyMemoryWrite(paddr, 1);
      if paddr < RDRAM_LIMIT && rdram != [] {
        rdram := rdram[paddr % |rdram| := value];
      }
    }

    method Write16(addr: nat, value: u16)
      requires cache.Valid()
      modifies `rdram, cache`aliased, cache`count, cache.table
      ensures cache.Valid() && Mem() == PhysicalMemory.Write16(old(Mem()), addr, value)
      ensures cache.Contents() == AfterWrite16(old(cache.Contents()), old(Mem()), addr)
    {
      PhysicalTwice(addr);
      hide Byte, AfterInvalidate, Physical;
      var paddr := Physical(addr);
      NotifyMemoryWrite(paddr, 2);
      if paddr < RDRAM_LIMIT && rdram != [] && paddr % |rdram| + 1 < |rdram| {
        var base := paddr % |rdram|;
        rdram := rdram[base := Byte(value, 1)][base + 1 := Byte(value, 0)];
      } else {
        Write8(addr, Byte(value, 1));
        Write8(addr + 1, Byte(value, 0));
      }
    }

    method Write32(addr: nat, value: u32)
      requires cache.Valid()
      modifies `rdram, cache`aliased, cache`count, cache.table
      ensures cache.Valid() && Mem() == PhysicalMemory.Write32(old(Mem()), addr, value)
      ensures cache.Contents() == AfterWrite32(old(cache.Contents()), old(Mem()), addr)
    {
      PhysicalTwice(addr);
      hide Byte, AfterInvalidate, Physical;
      var paddr := Physical(addr);
      NotifyMemoryWrite(paddr, 4);
      if paddr < RDRAM_LIMIT && rdram != [] && paddr % |rdram| + 3 < |rdram| {
        var base := paddr % |rdram|;
        rdram := rdram[base := Byte(value, 3)][base + 1 := Byte(value, 2)]
                      [base + 2 := Byte(value, 1)][base + 3 := Byte(value, 0)];
      } else {
        Write8(addr, Byte(value, 3));
        Write8(addr + 1, Byte(value, 2));
        Write8(addr + 2, Byte(value, 1));
        Write8(addr + 3, Byte(value, 0));
      }
    }

    method Write64(addr: nat, value: u64)
      requires cache.Valid()
      modifies `rdram, cache`aliased, cache`count, cache.table
      ensures cache.Valid() && Mem() == PhysicalMemory.Write64(old(Mem()), addr, value)
      ensures cache.Contents() ==
        AfterWrite64(old(cache.Contents()), old(Mem()), addr, value / 0x1_0000_0000)
    {
      PhysicalTwice(addr);
      hide Byte, AfterInvalidate, Physical;
      var paddr := Physical(addr);
      var hi: u32, lo: u32 := value / 0x1_0000_0000, value % 0x1_0000_0000;
      NotifyMemoryWrite(paddr, 8);
      if paddr < RDRAM_LIMIT && rdram != [] && paddr % |rdram| + 7 < |rdram| {
        var base := paddr % |rdram|;
        rdram := rdram[base := Byte(hi, 3)][base + 1 := Byte(hi, 2)][base + 2 := Byte(hi, 1)][base + 3 := Byte(hi, 0)]
                      [base + 4 := Byte(lo, 3)][base + 5 := Byte(lo, 2)]
                      [base + 6 := Byte(lo, 1)][base + 7 := Byte(lo, 0)];
      } else {
        Write32(addr, hi);
        Write32(addr + 4, lo);
      }
    }
  }
}
