/** The physical memory map behind the bus: RDRAM, the read-only cartridge and PIF
    images, and open bus everywhere else. Words are big-endian. */
module PhysicalMemory {
  import opened Words

  const RDRAM_LIMIT := 0x03F0_0000
  const CART_BASE := 0x1000_0000
  const CART_END := 0x1FBF_FFFF
  const PIF_ROM_BASE := 0x1FC0_0000
  const PIF_RAM_BASE := 0x1FC0_07C0
  const BUS_LIMIT := 0x2000_0000

  datatype Memory = Memory(ram: seq<u8>, cart: seq<u8>, pifRom: seq<u8>)

  function Physical(addr: nat): (p: nat)
    ensures p < BUS_LIMIT
  {
    addr % BUS_LIMIT
  }

  function Read8(m: Memory, addr: nat): u8
  {
    var p := Physical(addr);
    if p < RDRAM_LIMIT && m.ram != [] then m.ram[p % |m.ram|]
    else if CART_BASE <= p <= CART_END then
      if p - CART_BASE < |m.cart| then m.cart[p - CART_BASE] else 0
    else if PIF_ROM_BASE <= p < PIF_RAM_BASE then
      if p - PIF_ROM_BASE < |m.pifRom| then m.pifRom[p - PIF_ROM_BASE] else 0
    else p / 0x100 % 0x100
  }

  function Word(b0: u8, b1: u8, b2: u8, b3: u8): u32
  {
    b0 * 0x100_0000 + b1 * 0x1_0000 + b2 * 0x100 + b3
  }

  /** True when the whole access lies in one copy of RDRAM, the fast path. */
  predicate InRam(m: Memory, addr: nat, size: nat) {
    Physical(addr) < RDRAM_LIMIT && m.ram != [] && Physical(addr) % |m.ram| + size <= |m.ram|
  }

  function Read32(m: Memory, addr: nat): u32
  {
    if InRam(m, addr, 4) then
      var o := Physical(addr) % |m.ram|;
      Word(m.ram[o], m.ram[o + 1], m.ram[o + 2], m.ram[o + 3])
    else
      Word(Read8(m, addr), Read8(m, addr + 1), Read8(m, addr + 2), Read8(m, addr + 3))
  }

  function Byte(value: nat, lane: nat): u8
  {
    match lane
    case 0 => value % 0x100
    case 1 => value / 0x100 % 0x100
    case 2 => value / 0x1_0000 % 0x100
    case _ => value / 0x100_0000 % 0x100
  }

  function Write8(m: Memory, addr: nat, value: u8): Memory
  {
    var p := Physical(addr);
    if p < RDRAM_LIMIT && m.ram != [] then m.(ram := m.ram[p % |m.ram| := value]) else m
  }

  function Write16(m: Memory, addr: nat, value: u16): Memory
  {
    if InRam(m, addr, 2) then
      var o := Physical(addr) % |m.ram|;
      m.(ram := m.ram[o := Byte(value, 1)][o + 1 := Byte(value, 0)])
    else
      Write8(Write8(m, addr, Byte(value, 1)), addr + 1, Byte(value, 0))
  }

  function Write32(m: Memory, addr: nat, value: u32): Memory
  {
    if InRam(m, addr, 4) then
      var o := Physical(addr) % |m.ram|;
      m.(ram := m.ram[o := Byte(value, 3)][o + 1 := Byte(value, 2)]
                     [o + 2 := Byte(value, 1)][o + 3 := Byte(value, 0)])
    else
      Write8(Write8(Write8(Write8(m, addr, Byte(value, 3)), addr + 1, Byte(value, 2)),
                    addr + 2, Byte(value, 1)), addr + 3, Byte(value, 0))
  }

  function Write64(m: Memory, addr: nat, value: u64): Memory
  {
    var hi: u32, lo: u32 := value / 0x1_0000_0000, value % 0x1_0000_0000;
    if InRam(m, addr, 8) then
      var o := Physical(addr) % |m.ram|;
      m.(ram := m.ram[o := Byte(hi, 3)][o + 1 := Byte(hi, 2)][o + 2 := Byte(hi, 1)][o + 3 := Byte(hi, 0)]
                     [o + 4 := Byte(lo, 3)][o + 5 := Byte(lo, 2)][o + 6 := Byte(lo, 1)][o + 7 := Byte(lo, 0)])
    else
      Write32(Write32(m, addr, hi), addr + 4, lo)
  }

  /** A range that names its own bytes: inside RDRAM proper, or above the
      RDRAM window where nothing can be written. Between the two lie the mirrors,
      whose bytes are also reachable under another address. */
  predicate Settled(m: Memory, addr: nat, size: nat) {
    addr + size <= BUS_LIMIT && (addr + size <= |m.ram| <= RDRAM_LIMIT || RDRAM_LIMIT <= addr)
  }

  /** `n` differs from `m` at most in the bytes `[addr, addr + size)`. */
  ghost predicate ChangedOnly(m: Memory, n: Memory, addr: nat, size: nat) {
    && n.cart == m.cart && n.pifRom == m.pifRom && |n.ram| == |m.ram|
    && forall i :: 0 <= i < |m.ram| && !(addr <= i < addr + size) ==> n.ram[i] == m.ram[i]
  }

  lemma SmallMod(x: nat, n: nat)
    requires x < n
    ensures x % n == x
  {
  }

  /** Inside RDRAM proper an address is its own index. */
  lemma LowIndex(m: Memory, addr: nat, size: nat)
    requires 0 < size && addr + size <= |m.ram| <= RDRAM_LIMIT
    ensures InRam(m, addr, size) && Physical(addr) == addr && Physical(addr) % |m.ram| == addr
  {
    SmallMod(addr, |m.ram|);
  }

  /** Above the RDRAM window a write changes nothing. */
  lemma HighWrite8(m: Memory, addr: nat, value: u8)
    requires RDRAM_LIMIT <= addr < BUS_LIMIT
    ensures Write8(m, addr, value) == m
  {
  }

  lemma HighNotRam(m: Memory, addr: nat, size: nat)
    requires RDRAM_LIMIT <= addr < BUS_LIMIT
    ensures !InRam(m, addr, size)
  {
  }

  lemma Write32ChangesOnly(m: Memory, addr: nat, value: u32)
    requires Settled(m, addr, 4)
    ensures ChangedOnly(m, Write32(m, addr, value), addr, 4)
  {
    if addr + 4 <= |m.ram| <= RDRAM_LIMIT {
      LowIndex(m, addr, 4);
      hide Byte, Physical, InRam;
      assert Write32(m, addr, value) ==
             m.(ram := m.ram[addr := Byte(value, 3)][addr + 1 := Byte(value, 2)]
                            [addr + 2 := Byte(value, 1)][addr + 3 := Byte(value, 0)]);
    } else {
      HighNotRam(m, addr, 4);
      HighWrite8(m, addr, Byte(value, 3));
      HighWrite8(m, addr + 1, Byte(value, 2));
      HighWrite8(m, addr + 2, Byte(value, 1));
      HighWrite8(m, addr + 3, Byte(value, 0));
      hide Byte, Physical, InRam, Write8;
    }
  }

  lemma Write16ChangesOnly(m: Memory, addr: nat, value: u16)
    requires Settled(m, addr, 2)
    ensures ChangedOnly(m, Write16(m, addr, value), addr, 2)
  {
    if addr + 2 <= |m.ram| <= RDRAM_LIMIT {
      LowIndex(m, addr, 2);
      hide Byte, Physical, InRam;
      assert Write16(m, addr, value) ==
             m.(ram := m.ram[addr := Byte(value, 1)][addr + 1 := Byte(value, 0)]);
    } else {
      HighNotRam(m, addr, 2);
      HighWrite8(m, addr, Byte(value, 1));
      HighWrite8(m, addr + 1, Byte(value, 0));
      hide Byte, Physical, InRam, Write8;
    }
  }

  lemma Write8ChangesOnly(m: Memory, addr: nat, value: u8)
    requires Settled(m, addr, 1)
    ensures ChangedOnly(m, Write8(m, addr, value), addr, 1)
  {
    if addr + 1 <= |m.ram| <= RDRAM_LIMIT {
      LowIndex(m, addr, 1);
    } else {
      HighWrite8(m, addr, value);
    }
  }

  lemma Write64ChangesOnly(m: Memory, addr: nat, value: u64)
    requires Settled(m, addr, 8)
    ensures ChangedOnly(m, Write64(m, addr, value), addr, 8)
  {
    var hi: u32, lo: u32 := value / 0x1_0000_0000, value % 0x1_0000_0000;
    if addr + 8 <= |m.ram| <= RDRAM_LIMIT {
      LowIndex(m, addr, 8);
      hide Byte, Physical, InRam;
      assert Write64(m, addr, value).ram ==
             m.ram[addr := Byte(hi, 3)][addr + 1 := Byte(hi, 2)][addr + 2 := Byte(hi, 1)][addr + 3 := Byte(hi, 0)]
                  [addr + 4 := Byte(lo, 3)][addr + 5 := Byte(lo, 2)][addr + 6 := Byte(lo, 1)][addr + 7 := Byte(lo, 0)];
      assert Write64(m, addr, value) == m.(ram := Write64(m, addr, value).ram);
      hide Write64;
    } else {
      HighNotRam(m, addr, 8);
      Write32ChangesOnly(m, addr, hi);
      Write32ChangesOnly(Write32(m, addr, hi), addr + 4, lo);
      hide Byte, Physical, InRam, Write32;
    }
  }

  lemma WordOfBytes(value: u32)
    ensures Word(Byte(value, 3), Byte(value, 2), Byte(value, 1), Byte(value, 0)) == value
  {
    var a, r := value / 0x100, value % 0x100;
    var b, q := a / 0x100, a % 0x100;
    var c, p := b / 0x100, b % 0x100;
    DivMod(value, 0x1_0000, b, 0x100 * q + r);
    DivMod(value, 0x100_0000, c, 0x1_0000 * p + 0x100 * q + r);
  }

  /** Reading back what was written. */
  lemma ReadOwnWrite(m: Memory, addr: nat, value: u32)
    requires InRam(m, addr, 4)
    ensures Read32(Write32(m, addr, value), addr) == value
  {
    WordOfBytes(value);
    var o := Physical(addr) % |m.ram|;
    var w := Write32(m, addr, value);
    hide Byte, Physical, Word;
    assert |w.ram| == |m.ram| && InRam(w, addr, 4);
    assert w.ram[o] == Byte(value, 3) && w.ram[o + 1] == Byte(value, 2);
    assert w.ram[o + 2] == Byte(value, 1) && w.ram[o + 3] == Byte(value, 0);
  }

  lemma HighRead8(m: Memory, n: Memory, q: nat)
    requires m.cart == n.cart && m.pifRom == n.pifRom && RDRAM_LIMIT <= q < BUS_LIMIT
    ensures Read8(n, q) == Read8(m, q)
  {
  }

  /** A settled word outside the written range reads the same. */
  lemma ReadFrame(m: Memory, n: Memory, addr: nat, size: nat, q: nat)
    requires ChangedOnly(m, n, addr, size) && Settled(m, q, 4)
    requires q + 4 <= addr || addr + size <= q || RDRAM_LIMIT <= q
    ensures Read32(n, q) == Read32(m, q)
  {
    if q + 4 <= |m.ram| <= RDRAM_LIMIT {
      LowIndex(m, q, 4);
      LowIndex(n, q, 4);
      hide Word, Physical, InRam;
    } else {
      HighNotRam(m, q, 4);
      HighNotRam(n, q, 4);
      HighRead8(m, n, q);
      HighRead8(m, n, q + 1);
      HighRead8(m, n, q + 2);
      HighRead8(m, n, q + 3);
      hide Read8, Word, Physical, InRam;
    }
  }
}
