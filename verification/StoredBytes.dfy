/** Big-endian memory, byte by byte: what each write leaves at each address, through the fast path
    inside one copy of RDRAM or through the byte-wise one, and what reads make of the bytes. */
module StoredBytes {
  import opened Words
  import opened PhysicalMemory

  /** `size` bytes from `addr` on, all in the RDRAM window and all different. */
  predicate InWindow(m: Memory, addr: nat, size: nat) {
    addr % BUS_LIMIT + size <= RDRAM_LIMIT && 0 < size <= |m.ram|
  }

  /** Bytes stored one after the other. */
  function WriteBytes(m: Memory, addr: nat, bytes: seq<u8>): Memory
    decreases |bytes|
  {
    if bytes == [] then m else WriteBytes(Write8(m, addr, bytes[0]), addr + 1, bytes[1..])
  }

  /** Consecutive addresses of the window are consecutive places, in each copy and from one to the
      next. */
  lemma Place(m: Memory, addr: nat, k: nat)
    requires addr % BUS_LIMIT + k < RDRAM_LIMIT
    ensures Physical(addr + k) == addr % BUS_LIMIT + k
  {
    DivMod(addr + k, BUS_LIMIT, addr / BUS_LIMIT, addr % BUS_LIMIT + k);
  }

  /** Places less than the size of RDRAM apart are different bytes. */
  lemma Apart(n: nat, p: nat, k: nat)
    requires 0 < k < n
    ensures (p + k) % n != p % n
  {
    var q, r := p / n, p % n;
    assert p == n * q + r;
    if r + k < n {
      DivMod(p + k, n, q, r + k);
    } else {
      assert n * (q + 1) == n * q + n;
      DivMod(p + k, n, q + 1, r + k - n);
    }
  }

  lemma ReadWritten(m: Memory, addr: nat, value: u8)
    requires InWindow(m, addr, 1)
    ensures var n := Write8(m, addr, value);
      Read8(n, addr) == value && |n.ram| == |m.ram| && n.cart == m.cart && n.pifRom == m.pifRom
  {
  }

  /** A byte written elsewhere in the window leaves this one. */
  lemma ReadOther(m: Memory, addr: nat, k: nat, value: u8)
    requires InWindow(m, addr, k + 1) && k > 0
    ensures Read8(Write8(m, addr + k, value), addr) == Read8(m, addr)
    ensures Read8(Write8(m, addr, value), addr + k) == Read8(m, addr + k)
  {
    Place(m, addr, k);
    Apart(|m.ram|, addr % BUS_LIMIT, k);
  }

  /** Every byte is found where it was put. */
  lemma {:induction false} ReadsBytes(m: Memory, addr: nat, bytes: seq<u8>, k: nat)
    requires InWindow(m, addr, |bytes|) && k < |bytes|
    ensures Read8(WriteBytes(m, addr, bytes), addr + k) == bytes[k]
    ensures |WriteBytes(m, addr, bytes).ram| == |m.ram|
    decreases |bytes|
  {
    ReadWritten(m, addr, bytes[0]);
    if |bytes| > 1 {
      var n, rest := Write8(m, addr, bytes[0]), bytes[1..];
      Place(m, addr, 1);
      hide Read8, Write8;
      if k > 0 {
        ReadsBytes(n, addr + 1, rest, k - 1);
      } else {
        ReadsBytes(n, addr + 1, rest, 0);
        KeepsByte(n, addr, 1, rest);
      }
    }
  }

  lemma {:induction false} KeepsByte(m: Memory, addr: nat, k: nat, bytes: seq<u8>)
    requires k > 0 && InWindow(m, addr, k + |bytes|)
    ensures Read8(WriteBytes(m, addr + k, bytes), addr) == Read8(m, addr)
    decreases |bytes|
  {
    if bytes != [] {
      ReadOther(m, addr, k, bytes[0]);
      SameLength(m, addr + k, bytes[0]);
      hide Read8, Write8;
      KeepsByte(Write8(m, addr + k, bytes[0]), addr, k + 1, bytes[1..]);
    }
  }

  lemma SameLength(m: Memory, addr: nat, value: u8)
    ensures |Write8(m, addr, value).ram| == |m.ram|
  {
  }

  // ---------------------------------------------------------------- the typed accesses

  /** Inside one copy the places follow each other. */
  lemma FastPlace(m: Memory, addr: nat, size: nat, k: nat)
    requires InWindow(m, addr, size) && InRam(m, addr, size) && k < size
    ensures Physical(addr + k) % |m.ram| == Physical(addr) % |m.ram| + k && Physical(addr + k) < RDRAM_LIMIT
  {
    Place(m, addr, k);
    var p, n := addr % BUS_LIMIT, |m.ram|;
    assert p == n * (p / n) + p % n;
    DivMod(p + k, n, p / n, p % n + k);
  }

  /** A word is its four bytes, the first the most significant. */
  lemma Read32Bytes(m: Memory, addr: nat)
    requires addr % BUS_LIMIT + 4 <= RDRAM_LIMIT || RDRAM_LIMIT <= addr % BUS_LIMIT
    ensures Read32(m, addr) ==
      Read8(m, addr) * 0x100_0000 + Read8(m, addr + 1) * 0x1_0000 + Read8(m, addr + 2) * 0x100 + Read8(m, addr + 3)
  {
    if InRam(m, addr, 4) {
      FastPlace(m, addr, 4, 1);
      FastPlace(m, addr, 4, 2);
      FastPlace(m, addr, 4, 3);
    }
    hide Physical;
  }

  lemma Write16IsBytes(m: Memory, addr: nat, value: u16)
    requires InWindow(m, addr, 2)
    ensures Write16(m, addr, value) == WriteBytes(m, addr, [value / 0x100, value % 0x100])
  {
    if InRam(m, addr, 2) {
      FastPlace(m, addr, 2, 0);
      FastPlace(m, addr, 2, 1);
    }
    TwoBytes(m, addr, value / 0x100, value % 0x100);
    SmallMod(value / 0x100, 0x100);
    hide Physical, WriteBytes;
  }

  lemma OneByte(m: Memory, addr: nat, a: u8, rest: seq<u8>)
    ensures WriteBytes(m, addr, [a] + rest) == WriteBytes(Write8(m, addr, a), addr + 1, rest)
  {
    assert ([a] + rest)[1..] == rest;
    hide Write8;
  }

  lemma TwoBytes(m: Memory, addr: nat, a: u8, b: u8)
    ensures WriteBytes(m, addr, [a, b]) == Write8(Write8(m, addr, a), addr + 1, b)
  {
    var n := Write8(m, addr, a);
    OneByte(m, addr, a, [b]);
    OneByte(n, addr + 1, b, []);
    assert [a] + [b] == [a, b] && [b] + [] == [b];
    hide Write8;
  }

  lemma FourBytes(m: Memory, addr: nat, a: u8, b: u8, c: u8, d: u8)
    ensures WriteBytes(m, addr, [a, b, c, d])
         == Write8(Write8(Write8(Write8(m, addr, a), addr + 1, b), addr + 2, c), addr + 3, d)
  {
    var n := Write8(m, addr, a);
    OneByte(m, addr, a, [b, c, d]);
    OneByte(n, addr + 1, b, [c, d]);
    TwoBytes(Write8(n, addr + 1, b), addr + 2, c, d);
    assert [a] + [b, c, d] == [a, b, c, d] && [b] + [c, d] == [b, c, d];
    hide Write8, WriteBytes;
  }

  /** Inside one copy the bytes replace as many. */
  lemma {:induction false} FastBytes(m: Memory, addr: nat, bytes: seq<u8>)
    requires bytes != [] && InWindow(m, addr, |bytes|) && InRam(m, addr, |bytes|)
    ensures var o := Physical(addr) % |m.ram|;
      WriteBytes(m, addr, bytes) == m.(ram := m.ram[..o] + bytes + m.ram[o + |bytes|..])
    decreases |bytes|
  {
    var n, o, rest := Write8(m, addr, bytes[0]), Physical(addr) % |m.ram|, bytes[1..];
    FastPlace(m, addr, |bytes|, 0);
    assert n == m.(ram := m.ram[o := bytes[0]]);
    hide Write8, Physical;
    if rest == [] {
      assert m.ram[o := bytes[0]] == m.ram[..o] + bytes + m.ram[o + 1..];
    } else {
      FastPlace(m, addr, |bytes|, 1);
      NextPlace(m, addr, |bytes|);
      FastBytes(n, addr + 1, rest);
      assert n.ram[..o + 1] + rest + n.ram[o + |bytes|..] == m.ram[..o] + bytes + m.ram[o + |bytes|..];
    }
  }

  lemma NextPlace(m: Memory, addr: nat, size: nat)
    requires size > 1 && InWindow(m, addr, size) && InRam(m, addr, size)
    ensures (addr + 1) % BUS_LIMIT + (size - 1) <= RDRAM_LIMIT && InRam(m, addr + 1, size - 1)
  {
    Place(m, addr, 1);
    FastPlace(m, addr, size, 1);
  }

  lemma {:induction false} BytesAppend(m: Memory, addr: nat, a: seq<u8>, b: seq<u8>)
    ensures WriteBytes(m, addr, a + b) == WriteBytes(WriteBytes(m, addr, a), addr + |a|, b)
    decreases |a|
  {
    hide Write8;
    if a == [] {
      assert a + b == b;
    } else {
      assert (a + b)[1..] == a[1..] + b;
      BytesAppend(Write8(m, addr, a[0]), addr + 1, a[1..], b);
    }
  }

  /** A halfword is stored upper byte first, on either path. */
  lemma Write16ReadsBack(m: Memory, addr: nat, value: u16)
    requires InWindow(m, addr, 2)
    ensures var n := Write16(m, addr, value);
      Read8(n, addr) == value / 0x100 && Read8(n, addr + 1) == value % 0x100
  {
    Write16IsBytes(m, addr, value);
    var bytes: seq<u8> := [value / 0x100, value % 0x100];
    ReadsBytes(m, addr, bytes, 0);
    ReadsBytes(m, addr, bytes, 1);
    hide WriteBytes, Read8, Write16;
  }

  function WordBytes(value: u32): seq<u8> {
    [value / 0x100_0000, value / 0x1_0000 % 0x100, value / 0x100 % 0x100, value % 0x100]
  }

  lemma Write32IsBytes(m: Memory, addr: nat, value: u32)
    requires InWindow(m, addr, 4)
    ensures Write32(m, addr, value) == WriteBytes(m, addr, WordBytes(value))
  {
    if InRam(m, addr, 4) {
      FastPlace(m, addr, 4, 0);
      FastPlace(m, addr, 4, 1);
      FastPlace(m, addr, 4, 2);
      FastPlace(m, addr, 4, 3);
    }
    SmallMod(value / 0x100_0000, 0x100);
    FourBytes(m, addr, value / 0x100_0000, value / 0x1_0000 % 0x100, value / 0x100 % 0x100, value % 0x100);
    hide Physical, WriteBytes;
  }

  /** A word is read back, byte by byte and as a word, on either path. */
  lemma Write32ReadsBack(m: Memory, addr: nat, value: u32)
    requires InWindow(m, addr, 4)
    ensures var n := Write32(m, addr, value);
      && Read8(n, addr) == value / 0x100_0000 && Read8(n, addr + 1) == value / 0x1_0000 % 0x100
      && Read8(n, addr + 2) == value / 0x100 % 0x100 && Read8(n, addr + 3) == value % 0x100
      && Read32(n, addr) == value
  {
    Write32IsBytes(m, addr, value);
    ReadsWord(m, addr, value);
    hide WriteBytes, Read8, Write32, Read32;
  }

  lemma ReadsWord(m: Memory, addr: nat, value: u32)
    requires InWindow(m, addr, 4)
    ensures var n := WriteBytes(m, addr, WordBytes(value));
      && Read8(n, addr) == value / 0x100_0000 && Read8(n, addr + 1) == value / 0x1_0000 % 0x100
      && Read8(n, addr + 2) == value / 0x100 % 0x100 && Read8(n, addr + 3) == value % 0x100
      && Read32(n, addr) == value
  {
    var bytes := WordBytes(value);
    ReadsBytes(m, addr, bytes, 0);
    ReadsBytes(m, addr, bytes, 1);
    ReadsBytes(m, addr, bytes, 2);
    ReadsBytes(m, addr, bytes, 3);
    Read32Bytes(WriteBytes(m, addr, bytes), addr);
    WordValue(value);
    hide WriteBytes, Read8, Read32, InWindow;
  }

  lemma WordValue(value: u32)
    ensures var b := WordBytes(value);
      value == b[0] as int * 0x100_0000 + b[1] as int * 0x1_0000 + b[2] as int * 0x100 + b[3]
  {
    WordOfBytes(value);
    SmallMod(value / 0x100_0000, 0x100);
  }

  lemma Write64IsWords(m: Memory, addr: nat, value: u64)
    requires InWindow(m, addr, 8)
    ensures Write64(m, addr, value)
         == WriteBytes(m, addr, WordBytes(value / 0x1_0000_0000) + WordBytes(value % 0x1_0000_0000))
  {
    var hi, lo := value / 0x1_0000_0000, value % 0x1_0000_0000;
    if InRam(m, addr, 8) {
      FastBytes(m, addr, WordBytes(hi) + WordBytes(lo));
      SmallMod(hi / 0x100_0000, 0x100);
      SmallMod(lo / 0x100_0000, 0x100);
      hide Physical, WriteBytes;
    } else {
      Place(m, addr, 4);
      Write32IsBytes(m, addr, hi);
      BytesAppend(m, addr, WordBytes(hi), WordBytes(lo));
      ReadsBytes(m, addr, WordBytes(hi), 0);
      Write32IsBytes(Write32(m, addr, hi), addr + 4, lo);
      hide Physical, WriteBytes, Write32, WordBytes, InRam;
    }
  }

  /** A doubleword is stored upper word first, on either path. */
  lemma Write64ReadsBack(m: Memory, addr: nat, value: u64)
    requires InWindow(m, addr, 8)
    ensures var n := Write64(m, addr, value);
      Read32(n, addr) == value / TWO_TO_32 && Read32(n, addr + 4) == value % TWO_TO_32
  {
    Write64IsWords(m, addr, value);
    ReadsWords(m, addr, value / TWO_TO_32, value % TWO_TO_32);
    hide WriteBytes, Write64, Read32, WordBytes;
  }

  lemma ReadsWords(m: Memory, addr: nat, hi: u32, lo: u32)
    requires InWindow(m, addr, 8)
    ensures var n := WriteBytes(m, addr, WordBytes(hi) + WordBytes(lo));
      Read32(n, addr) == hi && Read32(n, addr + 4) == lo
  {
    hide WriteBytes, Read8, Read32;
    var bytes := WordBytes(hi) + WordBytes(lo);
    BytesAppend(m, addr, WordBytes(hi), WordBytes(lo));
    Place(m, addr, 4);
    ReadsBytes(m, addr, WordBytes(hi), 0);
    ReadsWord(WriteBytes(m, addr, WordBytes(hi)), addr + 4, lo);
    ReadsBytes(m, addr, bytes, 0);
    ReadsBytes(m, addr, bytes, 1);
    ReadsBytes(m, addr, bytes, 2);
    ReadsBytes(m, addr, bytes, 3);
    Read32Bytes(WriteBytes(m, addr, bytes), addr);
    WordValue(hi);
  }

  // ---------------------------------------------------------------- the read-only images

  function ImageByte(image: seq<u8>, o: nat): u8 {
    if o < |image| then image[o] else 0
  }

  /** The cartridge from 0x10000000 and the boot ROM from 0x1FC00000, each from its first byte and
      reading zero past its last. */
  lemma ImageBytes(m: Memory, o: nat)
    ensures o < 0xFC0_0000 ==> Read8(m, 0x1000_0000 + o) == ImageByte(m.cart, o)
    ensures o < 0x7C0 ==> Read8(m, 0x1FC0_0000 + o) == ImageByte(m.pifRom, o)
  {
  }
}
