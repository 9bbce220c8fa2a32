/** The VR4300 memory management unit: segments, the 32-entry paired-page TLB and TLBP. */
module Translation {
  import opened Words

  const TLB_ENTRIES := 32
  const PROBE_FAIL := 0x8000_0000

  datatype TlbEntry = TlbEntry(pageMask: u32, entryHi: u32, entryLo0: u32, entryLo1: u32)

  datatype TranslationFault = AddressError | TlbMiss | TlbInvalid | TlbModified

  datatype Translation = Mapped(paddr: u32) | Fault(fault: TranslationFault)

  /** Everything outside the address itself that a translation reads:
      the TLB, the current ASID and the privilege mode (0 is kernel). */
  datatype Context = Context(tlb: seq<TlbEntry>, asid: nat, mode: nat)

  /** Kernel mode whenever EXL or ERL is set, Status.KSU otherwise. */
  function Mode(status: u32): (mode: nat)
  {
    if status / 2 % 2 == 1 || status / 4 % 2 == 1 then 0 else status / 8 % 4
  }

  /** The address bits one TLB entry does not compare: the pair of pages it maps. */
  function PairMask(e: TlbEntry): (mask: nat)
  {
    e.pageMask / 0x2000 % 0x1000 * 0x2000 + 0x1FFF
  }

  predicate Global(e: TlbEntry) {
    e.entryLo0 % 2 == 1 && e.entryLo1 % 2 == 1
  }

  predicate Matches(e: TlbEntry, v: u32, asid: nat) {
    && v - And(v, PairMask(e)) == e.entryHi - And(e.entryHi, PairMask(e))
    && (Global(e) || e.entryHi % 0x100 == asid)
  }

  /** The first entry at or after `i` that matches, or the number of entries. */
  function FirstMatch(tlb: seq<TlbEntry>, v: u32, asid: nat, i: nat): (k: nat)
    requires i <= |tlb|
    ensures i <= k <= |tlb|
    ensures k < |tlb| ==> Matches(tlb[k], v, asid)
    ensures forall j :: i <= j < k ==> !Matches(tlb[j], v, asid)
    decreases |tlb| - i
  {
    if i == |tlb| || Matches(tlb[i], v, asid) then i else FirstMatch(tlb, v, asid, i + 1)
  }

  /** The bits of the address that pass through an entry unchanged. */
  function OffsetMask(e: TlbEntry): (mask: nat)
  {
    (PairMask(e) + 1) / 2 - 1
  }

  function EntryTranslation(e: TlbEntry, v: u32, isStore: bool): (t: Translation)
  {
    var pageSize := OffsetMask(e) + 1;
    var lo := if And(v, pageSize) != 0 then e.entryLo1 else e.entryLo0;
    if lo / 2 % 2 == 0 then Fault(TlbInvalid)
    else if isStore && lo / 4 % 2 == 0 then Fault(TlbModified)
    else
      var frame := lo / 0x40 % 0x100_0000 * 0x1000;
      Mapped((frame - And(frame, OffsetMask(e)) + And(v, OffsetMask(e))) % 0x2000_0000)
  }

  predicate Unprivileged(mode: nat, v: u32) {
    (mode >= 2 && v >= 0x8000_0000) || (mode == 1 && v >= 0xE000_0000)
  }

  predicate DirectSegment(v: u32) {
    0x8000_0000 <= v < 0xC000_0000
  }

  function Translate(c: Context, vaddr: u64, isStore: bool): (t: Translation)
  {
    var v: u32 := vaddr % TWO_TO_32;
    if Unprivileged(c.mode, v) then Fault(AddressError)
    else if DirectSegment(v) then
      if c.mode != 0 then Fault(AddressError) else Mapped(v % 0x2000_0000)
    else
      var k := FirstMatch(c.tlb, v, c.asid, 0);
      if k == |c.tlb| then Fault(TlbMiss) else EntryTranslation(c.tlb[k], v, isStore)
  }

  /** KSEG0 and KSEG1 are windows on the first 512 MB, open to kernel mode alone. */
  lemma DirectTranslation(c: Context, pc: u64, isStore: bool)
    requires DirectSegment(pc % TWO_TO_32)
    ensures Translate(c, pc, isStore) ==
      if c.mode == 0 then Mapped(pc % TWO_TO_32 % 0x2000_0000) else Fault(AddressError)
  {
    hide FirstMatch;
  }

  /** TLBP: the value Index gets for a query in EntryHi. */
  function Probe(tlb: seq<TlbEntry>, entryHi: u32): (index: nat)
  {
    var k := FirstMatch(tlb, entryHi, entryHi % 0x100, 0);
    if k == |tlb| then PROBE_FAIL else k
  }

  // ---------------------------------------------------------------- page locality

  lemma AndPage(v: nat, m: nat)
    requires m % 0x1000 == 0xFFF
    ensures And(v, m) == 0x1000 * And(v / 0x1000, m / 0x1000) + v % 0x1000
  {
    assert Pow2(12) == 0x1000 by { Pow2Of12(); }
    AndConcat(12, v / 0x1000, m / 0x1000, v % 0x1000, 0xFFF);
    AndOnes(v % 0x1000, 0xFFF, 12);
  }

  lemma AndFrame(v: nat, m: nat)
    requires m % 0x1000 == 0
    ensures And(v, m) == 0x1000 * And(v / 0x1000, m / 0x1000)
  {
    assert Pow2(12) == 0x1000 by { Pow2Of12(); }
    AndConcat(12, v / 0x1000, m / 0x1000, v % 0x1000, 0);
    assert And(v % 0x1000, 0) == 0;
  }

  lemma Pow2Of12()
    ensures Pow2(12) == 0x1000
  {
    assert Pow2(4) == 16;
    assert Pow2(8) == 256;
  }

  lemma OffsetMaskLow(e: TlbEntry)
    ensures OffsetMask(e) % 0x1000 == 0xFFF
  {
  }

  /** The low twelve bits never decide a match. */
  lemma MatchesPage(e: TlbEntry, v: u32, w: u32, asid: nat)
    requires v / 0x1000 == w / 0x1000
    ensures Matches(e, v, asid) == Matches(e, w, asid)
  {
    PairMaskLow(e);
    hide PairMask, And, Global;
    AndPage(v, PairMask(e));
    AndPage(w, PairMask(e));
  }

  lemma PairMaskLow(e: TlbEntry)
    ensures PairMask(e) % 0x2000 == 0x1FFF && PairMask(e) % 0x1000 == 0xFFF
  {
  }

  lemma {:induction false} FirstMatchPage(tlb: seq<TlbEntry>, v: u32, w: u32, asid: nat, i: nat)
    requires i <= |tlb| && v / 0x1000 == w / 0x1000
    ensures FirstMatch(tlb, v, asid, i) == FirstMatch(tlb, w, asid, i)
    decreases |tlb| - i
  {
    if i < |tlb| {
      MatchesPage(tlb[i], v, w, asid);
      FirstMatchPage(tlb, v, w, asid, i + 1);
    }
  }

  /** Two addresses of one page translate alike. */
  predicate SamePage(s: Translation, t: Translation, v: nat, w: nat) {
    match (s, t)
    case (Fault(f), Fault(g)) => f == g
    case (Mapped(p), Mapped(q)) =>
      p / 0x1000 == q / 0x1000 && p % 0x1000 == v % 0x1000 && q % 0x1000 == w % 0x1000
    case _ => false
  }

  lemma FrameSum(base: nat, m: nat, q: nat, r: nat)
    requires base % 0x1000 == 0 && m == 0x1000 * q + r && r < 0x1000
    ensures (base + m) % 0x2000_0000 / 0x1000 == (base / 0x1000 + q) % 0x2_0000
    ensures (base + m) % 0x2000_0000 % 0x1000 == r
  {
    var n := base / 0x1000 + q;
    var hi, lo := n / 0x2_0000, n % 0x2_0000;
    var p := 0x1000 * lo + r;
    assert base + m == 0x2000_0000 * hi + p;
    DivMod(base + m, 0x2000_0000, hi, p);
    DivMod(p, 0x1000, lo, r);
  }

  /** The frame number an entry supplies, as a function of the page number only. */
  function FrameNumber(e: TlbEntry, lo: u32, page: nat): nat
  {
    var frame := lo / 0x40 % 0x100_0000 * 0x1000;
    ((frame - And(frame, OffsetMask(e))) / 0x1000 + And(page, OffsetMask(e) / 0x1000)) % 0x2_0000
  }

  lemma EntryTranslationFrame(e: TlbEntry, v: u32, lo: u32)
    ensures var frame := lo / 0x40 % 0x100_0000 * 0x1000;
            var p := (frame - And(frame, OffsetMask(e)) + And(v, OffsetMask(e))) % 0x2000_0000;
            p / 0x1000 == FrameNumber(e, lo, v / 0x1000) && p % 0x1000 == v % 0x1000
  {
    OffsetMaskLow(e);
    hide OffsetMask, And;
    var off := OffsetMask(e);
    AndPage(v, off);
    var n := lo / 0x40 % 0x100_0000;
    AlignedBase(n, off);
    FrameSum(n * 0x1000 - And(n * 0x1000, off), And(v, off), And(v / 0x1000, off / 0x1000), v % 0x1000);
  }

  lemma AlignedBase(n: nat, off: nat)
    requires off % 0x1000 == 0xFFF
    ensures (n * 0x1000 - And(n * 0x1000, off)) % 0x1000 == 0
  {
    AndPage(n * 0x1000, off);
    assert n * 0x1000 - And(n * 0x1000, off) == 0x1000 * (n - And(n, off / 0x1000));
  }

  lemma EntryTranslationPage(e: TlbEntry, v: u32, w: u32, isStore: bool)
    requires v / 0x1000 == w / 0x1000
    ensures SamePage(EntryTranslation(e, v, isStore), EntryTranslation(e, w, isStore), v, w)
  {
    OffsetMaskLow(e);
    hide OffsetMask, And, FrameNumber;
    AndFrame(v, OffsetMask(e) + 1);
    AndFrame(w, OffsetMask(e) + 1);
    var lo := if And(v, OffsetMask(e) + 1) != 0 then e.entryLo1 else e.entryLo0;
    EntryTranslationFrame(e, v, lo);
    EntryTranslationFrame(e, w, lo);
  }

  lemma Low12(a: u64)
    ensures a % TWO_TO_32 % 0x1000 == a % 0x1000
  {
  }

  lemma DirectPage(v: u32, w: u32)
    requires v / 0x1000 == w / 0x1000
    ensures SamePage(Mapped(v % 0x2000_0000), Mapped(w % 0x2000_0000), v, w)
  {
    FrameSum(0, v, v / 0x1000, v % 0x1000);
    FrameSum(0, w, w / 0x1000, w % 0x1000);
  }

  /** Page locality: addresses in one 4 KiB page get the same fault, or the same
      frame with the low twelve bits passed through, whatever the PageMask. */
  lemma TranslatePageLocal(c: Context, a: u64, b: u64, isStore: bool)
    requires a % TWO_TO_32 / 0x1000 == b % TWO_TO_32 / 0x1000
    ensures SamePage(Translate(c, a, isStore), Translate(c, b, isStore), a, b)
  {
    hide EntryTranslation, FirstMatch, Matches;
    var v: u32, w: u32 := a % TWO_TO_32, b % TWO_TO_32;
    Low12(a);
    Low12(b);
    if DirectSegment(v) {
      DirectPage(v, w);
    } else {
      FirstMatchPage(c.tlb, v, w, c.asid, 0);
      var k := FirstMatch(c.tlb, v, c.asid, 0);
      if k < |c.tlb| {
        EntryTranslationPage(c.tlb[k], v, w, isStore);
      }
    }
  }

  /** Word-aligned addresses translate to word-aligned addresses. */
  lemma AlignedFrame(c: Context, vaddr: u64, isStore: bool)
    requires vaddr % 4 == 0 && Translate(c, vaddr, isStore).Mapped?
    ensures Translate(c, vaddr, isStore).paddr % 4 == 0
  {
    hide Translate;
    TranslatePageLocal(c, vaddr, vaddr, isStore);
  }

  /** The physical bus is 29 bits wide. */
  lemma Translates29(c: Context, vaddr: u64, isStore: bool)
    ensures Translate(c, vaddr, isStore).Mapped? ==> Translate(c, vaddr, isStore).paddr < 0x2000_0000
  {
    hide And, OffsetMask, FirstMatch;
  }

  // ---------------------------------------------------------------- privilege

  /** The same translation state seen from kernel mode. */
  function Kernel(c: Context): Context {
    c.(mode := 0)
  }

  /** The segments a privilege mode may use. */
  predicate Reachable(mode: nat, v: u32) {
    !Unprivileged(mode, v) && (DirectSegment(v) ==> mode == 0)
  }

  /** The mode decides whether an address may be used at all, and nothing else. */
  lemma TranslateByMode(c: Context, vaddr: u64, isStore: bool)
    ensures Translate(c, vaddr, isStore) ==
      if Reachable(c.mode, vaddr % TWO_TO_32) then Translate(Kernel(c), vaddr, isStore) else Fault(AddressError)
    ensures Translate(Kernel(c), vaddr, isStore) != Fault(AddressError)
  {
    hide FirstMatch, And, OffsetMask;
  }

  /** Segments are made of whole pages. */
  lemma ReachablePage(mode: nat, v: u32, w: u32)
    requires v / 0x1000 == w / 0x1000
    ensures Reachable(mode, v) == Reachable(mode, w)
  {
  }

  // ---------------------------------------------------------------- TLBP agrees

  lemma MatchesPair(e: TlbEntry, v: u32, w: u32, asid: nat)
    requires v / 0x2000 == w / 0x2000
    ensures Matches(e, v, asid) == Matches(e, w, asid)
  {
    PairMaskLow(e);
    hide PairMask, And, Global;
    AndPair(v, PairMask(e));
    AndPair(w, PairMask(e));
  }

  lemma AndPair(v: nat, m: nat)
    requires m % 0x2000 == 0x1FFF
    ensures And(v, m) == 0x2000 * And(v / 0x2000, m / 0x2000) + v % 0x2000
  {
    assert Pow2(13) == 0x2000 by { Pow2Of12(); }
    AndConcat(13, v / 0x2000, m / 0x2000, v % 0x2000, 0x1FFF);
    AndOnes(v % 0x2000, 0x1FFF, 13);
  }

  lemma {:induction false} FirstMatchPair(tlb: seq<TlbEntry>, v: u32, w: u32, asid: nat, i: nat)
    requires i <= |tlb| && v / 0x2000 == w / 0x2000
    ensures FirstMatch(tlb, v, asid, i) == FirstMatch(tlb, w, asid, i)
    decreases |tlb| - i
  {
    if i < |tlb| {
      MatchesPair(tlb[i], v, w, asid);
      FirstMatchPair(tlb, v, w, asid, i + 1);
    }
  }

  /** In a mapped segment TLBP on the page pair of `vaddr` fails exactly when
      translation misses, and otherwise names the entry translation goes through. */
  lemma ProbeAgreesWithTranslate(c: Context, vaddr: u64, entryHi: u32, isStore: bool)
    requires |c.tlb| == TLB_ENTRIES
    requires entryHi / 0x2000 == vaddr % TWO_TO_32 / 0x2000 && entryHi % 0x100 == c.asid
    requires !DirectSegment(vaddr % TWO_TO_32) && !Unprivileged(c.mode, vaddr % TWO_TO_32)
    ensures Probe(c.tlb, entryHi) == PROBE_FAIL <==> Translate(c, vaddr, isStore) == Fault(TlbMiss)
    ensures var k := Probe(c.tlb, entryHi);
            k == PROBE_FAIL ||
            (k < TLB_ENTRIES &&
             Translate(c, vaddr, isStore) == EntryTranslation(c.tlb[k], vaddr % TWO_TO_32, isStore))
  {
    FirstMatchPair(c.tlb, entryHi, vaddr % TWO_TO_32, c.asid, 0);
  }
}
