/** The direct-mapped cache of compiled basic blocks with its reverse list of
    slots whose physical address cannot be derived from their index. */
module BlockCaching {
  import opened Words
  import opened Translation
  import opened PhysicalMemory
  import opened Blocks

  const TABLE_SIZE := 65536
  const NOT_ALIASED := -1
  const NO_TAG: u64 := 0xFFFF_FFFF_FFFF_FFFF

  datatype Slot = Slot(tagPc: u64, block: BasicBlock, valid: bool, aliasedPosition: int)

  /** A slot is on the reverse list iff it is valid and not direct-mapped. */
  predicate ListedRight(s: Slot) {
    s.aliasedPosition != NOT_ALIASED <==>
    (s.valid && !DirectMapped(s.block.startPc, s.block.paddr))
  }

  /** Equal but for the back pointer. */
  predicate SameEntry(s: Slot, t: Slot) {
    s.valid == t.valid && s.tagPc == t.tagPc && s.block == t.block
  }

  type Contents = map<nat, BasicBlock>

  function SlotIndex(vaddr: u64): (i: nat)
    ensures i < TABLE_SIZE
  {
    vaddr / 4 % TABLE_SIZE
  }

  /** KSEG0/KSEG1 blocks, whose slot index is also their physical word index. */
  predicate DirectMapped(startPc: u64, paddr: u32) {
    var v := startPc % TWO_TO_32;
    0x8000_0000 <= v <= 0xBFFF_FFFF && paddr == v % 0x2000_0000
  }

  predicate Overlaps(b: BasicBlock, paddr: nat, size: nat) {
    paddr < b.paddr + 4 * |b.insns| && paddr + size > b.paddr
  }

  /** The first word whose slot a write makes the cache look at: 32 before the write. */
  function FirstCandidate(paddr: nat): nat {
    if paddr / 4 > MAX_BLOCK_INSNS then paddr / 4 - MAX_BLOCK_INSNS else 0
  }

  /** The slot of one of the words `[first, word)`. */
  ghost predicate Visited(index: nat, first: nat, word: nat) {
    exists w :: first <= w < word && w % TABLE_SIZE == index
  }

  /** The slot is one the first pass looks at. */
  ghost predicate InWindow(index: nat, paddr: nat, size: nat)
    requires size > 0
  {
    Visited(index, FirstCandidate(paddr), (paddr + size - 1) / 4 + 1)
  }

  /** The block a write drops: it overlaps, and one of the two passes comes to it. */
  ghost predicate Dropped(index: nat, b: BasicBlock, paddr: nat, size: nat)
    requires size > 0
  {
    Overlaps(b, paddr, size) && (!DirectMapped(b.startPc, b.paddr) || InWindow(index, paddr, size))
  }

  ghost function AfterInvalidate(c: Contents, paddr: nat, size: nat): Contents
  {
    if size == 0 || size >= TABLE_SIZE * 4 then map[]
    else map i | i in c && !Dropped(i, c[i], paddr, size) :: c[i]
  }

  /** The blocks that a write to `[paddr, paddr + size)` does not overlap. */
  function Without(c: Contents, paddr: nat, size: nat): Contents
  {
    map i | i in c && !Overlaps(c[i], paddr, size) :: c[i]
  }

  /** What holds of every cached block on its own. */
  predicate Placed(index: nat, b: BasicBlock) {
    index == SlotIndex(b.startPc) && 1 <= |b.insns| <= MAX_BLOCK_INSNS + 1
  }

  /** Looking back 32 words is enough for every block but an unaligned one of all 33 words. */
  predicate Findable(b: BasicBlock) {
    b.paddr % 4 == 0 || |b.insns| <= MAX_BLOCK_INSNS
  }

  /** A direct-mapped block overlapping `[paddr, paddr + size)` sits in the slot of a
      word between 32 words before the range and the range's last word. */
  lemma DirectCandidate(index: nat, b: BasicBlock, paddr: nat, size: nat)
    requires Placed(index, b) && DirectMapped(b.startPc, b.paddr) && Findable(b)
    ensures index == b.paddr / 4 % TABLE_SIZE
    ensures Overlaps(b, paddr, size) ==>
      b.paddr / 4 <= (paddr + size - 1) / 4 && paddr / 4 <= b.paddr / 4 + MAX_BLOCK_INSNS
  {
    DirectIndex(b.startPc, b.paddr);
  }

  /** Such a block is dropped whenever it overlaps a write. */
  lemma FindableDropped(index: nat, b: BasicBlock, paddr: nat, size: nat)
    requires Placed(index, b) && Findable(b) && size > 0
    ensures Dropped(index, b, paddr, size) <==> Overlaps(b, paddr, size)
  {
    if Overlaps(b, paddr, size) && DirectMapped(b.startPc, b.paddr) {
      DirectCandidate(index, b, paddr, size);
      var w: nat := b.paddr / 4;
      assert FirstCandidate(paddr) <= w < (paddr + size - 1) / 4 + 1 && w % TABLE_SIZE == index;
    }
    hide Overlaps, DirectMapped, SlotIndex;
  }

  predicate AllFindable(c: Contents) {
    forall i :: i in c ==> Placed(i, c[i]) && Findable(c[i])
  }

  /** Among such blocks a write drops exactly those it overlaps. */
  lemma InvalidateFindable(c: Contents, paddr: nat, size: nat)
    requires AllFindable(c) && 0 < size < TABLE_SIZE * 4
    ensures AfterInvalidate(c, paddr, size) == Without(c, paddr, size)
  {
    hide Dropped, Overlaps, Placed;
    forall i | i in c
      ensures Dropped(i, c[i], paddr, size) == Overlaps(c[i], paddr, size)
    {
      FindableDropped(i, c[i], paddr, size);
    }
  }

  lemma DirectIndex(startPc: u64, paddr: u32)
    requires DirectMapped(startPc, paddr)
    ensures SlotIndex(startPc) == paddr / 4 % TABLE_SIZE
  {
    var hi, v := startPc / 0x1_0000_0000, startPc % 0x1_0000_0000;
    var k, p := v / 0x2000_0000, v % 0x2000_0000;
    var n, low := p / 4 / 65536, p / 4 % 65536;
    var r := p % 4;
    assert startPc == 4 * (65536 * (0x4000 * hi + 0x800 * k + n) + low) + r;
    DivMod(startPc, 4, 65536 * (0x4000 * hi + 0x800 * k + n) + low, r);
    DivMod(startPc / 4, 65536, 0x4000 * hi + 0x800 * k + n, low);
  }

  /** The block a compilation at `vaddr` builds now, if the address translates. */
  function Fresh(c: Context, m: Memory, vaddr: u64): Option<BasicBlock>
  {
    match Translate(c, vaddr, false)
    case Fault(_) => None
    case Mapped(p) => Some(FreshBlock(c, m, vaddr, p))
  }


  // ---------------------------------------------------------------- the table as a value

  /** The valid slots, as a map from slot index to block. */
  function BlocksOf(slots: seq<Slot>): Contents
  {
    map i | 0 <= i < |slots| && slots[i].valid :: slots[i].block
  }

  /** Back pointers and list agree in both directions, so entries are distinct. */
  predicate ListOk(slots: seq<Slot>, list: seq<nat>)
  {
    && (forall p :: 0 <= p < |list| ==> list[p] < |slots| && slots[list[p]].aliasedPosition == p)
    && (forall i :: 0 <= i < |slots| ==>
          var p := slots[i].aliasedPosition;
          p == NOT_ALIASED || (0 <= p < |list| && list[p] == i))
  }

  predicate SlotsOk(slots: seq<Slot>)
  {
    forall i :: 0 <= i < |slots| && slots[i].valid ==>
      slots[i].tagPc == slots[i].block.startPc && Placed(i, slots[i].block)
  }

  predicate ListingOk(slots: seq<Slot>)
  {
    forall i :: 0 <= i < |slots| ==> ListedRight(slots[i])
  }

  predicate ListingOkBut(slots: seq<Slot>, k: nat)
  {
    forall i :: 0 <= i < |slots| && i != k ==> ListedRight(slots[i])
  }

  /** The table after `unmark_physically_aliased(k)`: the last listed slot takes the
      freed position. */
  function UnmarkedSlots(slots: seq<Slot>, list: seq<nat>, k: nat): seq<Slot>
    requires ListOk(slots, list) && k < |slots|
  {
    var p := slots[k].aliasedPosition;
    if p == NOT_ALIASED then slots
    else
      var last := list[|list| - 1];
      var moved := slots[last := slots[last].(aliasedPosition := p)];
      moved[k := moved[k].(aliasedPosition := NOT_ALIASED)]
  }

  function UnmarkedList(slots: seq<Slot>, list: seq<nat>, k: nat): seq<nat>
    requires ListOk(slots, list) && k < |slots|
  {
    var p := slots[k].aliasedPosition;
    if p == NOT_ALIASED then list else list[p := list[|list| - 1]][..|list| - 1]
  }

  lemma UnmarkKeeps(slots: seq<Slot>, list: seq<nat>, k: nat)
    requires ListOk(slots, list) && k < |slots|
    ensures var s := UnmarkedSlots(slots, list, k);
      && |s| == |slots|
      && (forall i :: 0 <= i < |s| ==> SameEntry(s[i], slots[i]))
      && s[k].aliasedPosition == NOT_ALIASED
      && (forall i :: 0 <= i < |s| && i != k ==>
            (s[i].aliasedPosition == NOT_ALIASED <==> slots[i].aliasedPosition == NOT_ALIASED))
    ensures ListOk(UnmarkedSlots(slots, list, k), UnmarkedList(slots, list, k))
  {
    UnmarkListOk(slots, list, k);
  }

  lemma UnmarkListOk(slots: seq<Slot>, list: seq<nat>, k: nat)
    requires ListOk(slots, list) && k < |slots|
    ensures ListOk(UnmarkedSlots(slots, list, k), UnmarkedList(slots, list, k))
  {
    var s, l := UnmarkedSlots(slots, list, k), UnmarkedList(slots, list, k);
    var p := slots[k].aliasedPosition;
    if p != NOT_ALIASED {
      var last := list[|list| - 1];
      forall i | 0 <= i < |s|
        ensures s[i].aliasedPosition ==
          if i == k then NOT_ALIASED else if i == last then p else slots[i].aliasedPosition
      {
      }
      forall q | 0 <= q < |l|
        ensures l[q] == if q == p then last else list[q]
      {
      }
    }
  }

  /** Slots with the same entries hold the same blocks. */
  lemma SameEntries(s: seq<Slot>, t: seq<Slot>)
    requires |s| == |t| && forall i :: 0 <= i < |s| ==> SameEntry(s[i], t[i])
    ensures BlocksOf(s) == BlocksOf(t) && SlotsOk(s) == SlotsOk(t)
  {
    hide Placed;
    assert BlocksOf(s) == BlocksOf(t);
  }

  /** Dropping an unlisted slot. */
  lemma DropKeeps(s: seq<Slot>, list: seq<nat>, k: nat)
    requires ListOk(s, list) && SlotsOk(s) && ListingOkBut(s, k)
    requires k < |s| && s[k].valid && s[k].aliasedPosition == NOT_ALIASED
    ensures var t := s[k := s[k].(valid := false, tagPc := NO_TAG)];
      ListOk(t, list) && SlotsOk(t) && ListingOk(t)
      && BlocksOf(t) == BlocksOf(s) - {k} && |BlocksOf(t)| == |BlocksOf(s)| - 1
  {
    hide Placed, DirectMapped;
    var t := s[k := s[k].(valid := false, tagPc := NO_TAG)];
    assert BlocksOf(t) == BlocksOf(s) - {k};
    assert BlocksOf(t).Keys == BlocksOf(s).Keys - {k};
  }

  /** Filling an unlisted slot; only its own listing may then be wrong. */
  lemma FillKeeps(s: seq<Slot>, list: seq<nat>, k: nat, b: BasicBlock)
    requires ListOk(s, list) && SlotsOk(s) && ListingOkBut(s, k)
    requires k < |s| && s[k].aliasedPosition == NOT_ALIASED && Placed(k, b)
    ensures var t := s[k := s[k].(tagPc := b.startPc, block := b, valid := true)];
      ListOk(t, list) && SlotsOk(t) && ListingOkBut(t, k)
      && BlocksOf(t) == BlocksOf(s)[k := b]
      && |BlocksOf(t)| == if s[k].valid then |BlocksOf(s)| else |BlocksOf(s)| + 1
  {
    hide Placed, DirectMapped;
    var t := s[k := s[k].(tagPc := b.startPc, block := b, valid := true)];
    assert BlocksOf(t) == BlocksOf(s)[k := b];
    assert BlocksOf(t).Keys == BlocksOf(s).Keys + {k};
  }

  /** Appending an unlisted slot to the list. */
  lemma MarkKeeps(s: seq<Slot>, list: seq<nat>, k: nat)
    requires ListOk(s, list) && k < |s| && s[k].aliasedPosition == NOT_ALIASED
    ensures ListOk(s[k := s[k].(aliasedPosition := |list|)], list + [k])
  {
  }

  // ---------------------------------------------------------------- invalidation passes

  /** What the first pass leaves once it has come to `word`. */
  ghost function Pruned(c: Contents, first: nat, word: nat, paddr: nat, size: nat): Contents {
    map i | i in c && !(Overlaps(c[i], paddr, size) && Visited(i, first, word)) :: c[i]
  }

  lemma PrunedNone(c: Contents, first: nat, paddr: nat, size: nat)
    ensures Pruned(c, first, first, paddr, size) == c
  {
    hide Overlaps;
  }

  /** Visiting word `word` drops its slot's block if that overlaps. */
  lemma PrunedNext(c: Contents, first: nat, word: nat, paddr: nat, size: nat)
    requires first <= word
    ensures var k, p := word % TABLE_SIZE, Pruned(c, first, word, paddr, size);
      Pruned(c, first, word + 1, paddr, size) ==
        if k in p && Overlaps(p[k], paddr, size) then p - {k} else p
  {
    hide Overlaps;
    var k := word % TABLE_SIZE;
    forall i: nat
      ensures Visited(i, first, word + 1) <==> Visited(i, first, word) || i == k
    {
      VisitedNext(i, first, word);
    }
    hide Visited;
  }

  lemma VisitedNext(i: nat, first: nat, word: nat)
    requires first <= word
    ensures Visited(i, first, word + 1) <==> Visited(i, first, word) || i == word % TABLE_SIZE
  {
    if i == word % TABLE_SIZE {
      assert first <= word < word + 1 && word % TABLE_SIZE == i;
    }
  }

  /** The second pass drops overlapping blocks that are not direct-mapped, and no others. */
  predicate LostOnlyListed(now: Contents, was: Contents, paddr: nat, size: nat)
  {
    && (forall i :: i in now ==> i in was && now[i] == was[i])
    && (forall i :: i in was && i !in now ==>
          Overlaps(was[i], paddr, size) && !DirectMapped(was[i].startPc, was[i].paddr))
  }

  predicate ListClean(c: Contents, list: seq<nat>, paddr: nat, size: nat) {
    forall p :: 0 <= p < |list| ==> list[p] in c && !Overlaps(c[list[p]], paddr, size)
  }

  lemma ListedDrop(c: Contents, was: Contents, k: nat, list: seq<nat>, paddr: nat, size: nat)
    requires k in c && Overlaps(c[k], paddr, size) && !DirectMapped(c[k].startPc, c[k].paddr) && k !in list
    requires LostOnlyListed(c, was, paddr, size) && ListClean(c, list, paddr, size)
    ensures LostOnlyListed(c - {k}, was, paddr, size) && ListClean(c - {k}, list, paddr, size)
  {
    hide Overlaps, DirectMapped;
  }

  lemma ListStep(c: Contents, list: seq<nat>, position: nat, paddr: nat, size: nat)
    requires position < |list| && ListClean(c, list[..position], paddr, size)
    requires list[position] in c && !Overlaps(c[list[position]], paddr, size)
    ensures ListClean(c, list[..position + 1], paddr, size)
  {
    assert list[..position + 1] == list[..position] + [list[position]];
  }

  /** Both passes together drop exactly the blocks that overlap and can be found. */
  lemma Swept(slots: seq<Slot>, list: seq<nat>, was: Contents, paddr: nat, size: nat)
    requires ListOk(slots, list) && ListingOk(slots) && 0 < size < TABLE_SIZE * 4
    requires var mid := Pruned(was, FirstCandidate(paddr), (paddr + size - 1) / 4 + 1, paddr, size);
      LostOnlyListed(BlocksOf(slots), mid, paddr, size)
    requires ListClean(BlocksOf(slots), list, paddr, size)
    ensures BlocksOf(slots) == AfterInvalidate(was, paddr, size)
  {
    AllListed(slots, list);
    hide Overlaps, DirectMapped, Visited, FirstCandidate;
  }

  /** What the swap-remove walk knows of the slot it visits. */
  lemma ListedSlot(slots: seq<Slot>, list: seq<nat>, position: nat)
    requires ListOk(slots, list) && ListingOk(slots) && position < |list|
    ensures var k := list[position];
      k < |slots| && slots[k].valid && k !in list[..position]
      && UnmarkedList(slots, list, k)[..position] == list[..position]
      && |UnmarkedList(slots, list, k)| == |list| - 1
      && k in BlocksOf(slots) && BlocksOf(slots)[k] == slots[k].block
      && !DirectMapped(slots[k].block.startPc, slots[k].block.paddr)
  {
    hide DirectMapped;
  }

  /** Every valid slot is direct-mapped or listed. */
  lemma AllListed(slots: seq<Slot>, list: seq<nat>)
    requires ListOk(slots, list) && ListingOk(slots)
    ensures forall i :: i in BlocksOf(slots) ==>
      DirectMapped(slots[i].block.startPc, slots[i].block.paddr) || i in list
  {
    hide DirectMapped;
  }

  // ---------------------------------------------------------------- compilation

  /** What the loop has collected, and what is left of the line at `pc`, make the whole line. */
  predicate Compiling(c: Context, m: Memory, vaddr: u64, pc: u64, i: nat, insns: seq<u32>)
    requires i <= MAX_BLOCK_INSNS
  {
    && insns + Straight(c, m, pc, MAX_BLOCK_INSNS - i) == Straight(c, m, vaddr, MAX_BLOCK_INSNS)
    && StopsAtBranch(c, m, pc, MAX_BLOCK_INSNS - i) == StopsAtBranch(c, m, vaddr, MAX_BLOCK_INSNS)
  }

  lemma CompileStart(c: Context, m: Memory, vaddr: u64)
    ensures Compiling(c, m, vaddr, vaddr, 0, [])
  {
    hide Straight, StopsAtBranch;
    assert [] + Straight(c, m, vaddr, MAX_BLOCK_INSNS) == Straight(c, m, vaddr, MAX_BLOCK_INSNS);
  }

  /** One turn of the loop: the line ends here in one of four ways, or goes on. */
  lemma CompileStep(c: Context, m: Memory, vaddr: u64, pc: u64, i: nat, insns: seq<u32>)
    requires i < MAX_BLOCK_INSNS && Compiling(c, m, vaddr, pc, i, insns)
    ensures var (line, stops) := (Straight(c, m, vaddr, MAX_BLOCK_INSNS), StopsAtBranch(c, m, vaddr, MAX_BLOCK_INSNS));
      match Translate(c, pc, false)
      case Fault(_) => insns == line && !stops
      case Mapped(p) =>
        var w := Read32(m, p);
        if IsBranchOrJump(w) then (insns + [w]) + DelaySlot(c, m, pc) == line && stops
        else if IsTerminal(w) || Next(pc) % PAGE == 0 then insns + [w] == line && !stops
        else Compiling(c, m, vaddr, Next(pc), i + 1, insns + [w])
  {
    hide Translate, Read32, IsBranchOrJump, IsTerminal, Next, DelaySlot;
    var rest := Straight(c, m, pc, MAX_BLOCK_INSNS - i);
    if rest != [] {
      var tail := rest[1..];
      assert rest == [rest[0]] + tail;
      assert insns + ([rest[0]] + tail) == (insns + [rest[0]]) + tail;
    }
  }

  lemma CompileEnd(c: Context, m: Memory, vaddr: u64, pc: u64, insns: seq<u32>)
    requires Compiling(c, m, vaddr, pc, MAX_BLOCK_INSNS, insns)
    ensures insns == Straight(c, m, vaddr, MAX_BLOCK_INSNS) && !StopsAtBranch(c, m, vaddr, MAX_BLOCK_INSNS)
  {
  }

  class BlockCache {
    const table: array<Slot>
    var aliased: seq<nat>
    var count: nat
    var hits: nat
    var misses: nat

    ghost function Contents(): Contents
      reads table
    {
      BlocksOf(table[..])
    }

    ghost predicate Valid()
      reads `aliased, `count, table
    {
      table.Length == TABLE_SIZE && ListOk(table[..], aliased) && SlotsOk(table[..])
      && ListingOk(table[..]) && count == |Contents()|
    }

    constructor ()
      ensures Valid() && fresh(table) && Contents() == map[]
    {
      var empty := Slot(NO_TAG, BasicBlock(0, 0, [], false), false, NOT_ALIASED);
      table := new Slot[TABLE_SIZE](_ => empty);
      aliased, count, hits, misses := [], 0, 0, 0;
      new;
      assert Contents() == map[];
    }

    method MarkPhysicallyAliased(slotIndex: nat)
      requires ListOk(table[..], aliased) && slotIndex < table.Length
      modifies this`aliased, table
      ensures ListOk(table[..], aliased)
      ensures old(table[slotIndex].aliasedPosition) != NOT_ALIASED ==>
        table[..] == old(table[..]) && aliased == old(aliased)
      ensures old(table[slotIndex].aliasedPosition) == NOT_ALIASED ==>
        table[..] == old(table[..][slotIndex := table[slotIndex].(aliasedPosition := |aliased|)])
        && aliased == old(aliased) + [slotIndex]
    {
      if table[slotIndex].aliasedPosition != NOT_ALIASED {
        return;
      }
      MarkKeeps(table[..], aliased, slotIndex);
      table[slotIndex] := table[slotIndex].(aliasedPosition := |aliased|);
      aliased := aliased + [slotIndex];
    }

    /** Swap-remove. */
    method UnmarkPhysicallyAliased(slotIndex: nat)
      requires ListOk(table[..], aliased) && slotIndex < table.Length
      modifies this`aliased, table
      ensures table[..] == old(UnmarkedSlots(table[..], aliased, slotIndex))
      ensures aliased == old(UnmarkedList(table[..], aliased, slotIndex))
    {
      if table[slotIndex].aliasedPosition == NOT_ALIASED {
        return;
      }
      var position := table[slotIndex].aliasedPosition;
      var replacement := aliased[|aliased| - 1];
      aliased := aliased[position := replacement];
      table[replacement] := table[replacement].(aliasedPosition := position);
      aliased := aliased[..|aliased| - 1];
      table[slotIndex] := table[slotIndex].(aliasedPosition := NOT_ALIASED);
    }

    method InvalidateSlot(slotIndex: nat)
      requires Valid() && slotIndex < table.Length
      modifies this`aliased, this`count, table
      ensures Valid() && Contents() == old(Contents()) - {slotIndex}
      ensures aliased ==
        if old(table[slotIndex].valid) then old(UnmarkedList(table[..], aliased, slotIndex)) else old(aliased)
    {
      if !table[slotIndex].valid {
        assert Contents() == Contents() - {slotIndex};
        return;
      }
      UnmarkKeeps(table[..], aliased, slotIndex);
      SameEntries(UnmarkedSlots(table[..], aliased, slotIndex), table[..]);
      UnmarkPhysicallyAliased(slotIndex);
      DropKeeps(table[..], aliased, slotIndex);
      table[slotIndex] := table[slotIndex].(valid := false, tagPc := NO_TAG);
      if count > 0 {
        count := count - 1;
      }
    }

    method Lookup(vaddr: u64) returns (found: Option<BasicBlock>)
      requires Valid()
      modifies this`hits, this`misses
      ensures Valid()
      ensures var i := SlotIndex(vaddr);
        found == if i in Contents() && Contents()[i].startPc == vaddr then Some(Contents()[i]) else None
      ensures hits + misses == old(hits) + old(misses) + 1 && (found.Some? <==> hits == old(hits) + 1)
    {
      var slot := table[SlotIndex(vaddr)];
      assert slot == table[..][SlotIndex(vaddr)];
      if slot.valid && slot.tagPc == vaddr {
        hits := hits + 1;
        return Some(slot.block);
      }
      misses := misses + 1;
      return None;
    }

    method Clear()
      requires Valid()
      modifies this`aliased, this`count, table
      ensures Valid() && Contents() == map[]
    {
      for i := 0 to table.Length
        invariant forall j :: 0 <= j < i ==> !table[j].valid && table[j].aliasedPosition == NOT_ALIASED
      {
        table[i] := table[i].(valid := false, tagPc := NO_TAG, aliasedPosition := NOT_ALIASED);
      }
      aliased := [];
      count := 0;
      assert Contents() == map[];
    }

    /** Stores a freshly built block, replacing whatever occupied its slot. */
    method Install(blk: BasicBlock)
      requires Valid() && Placed(SlotIndex(blk.startPc), blk)
      modifies this`aliased, this`count, table
      ensures Valid() && Contents() == old(Contents())[SlotIndex(blk.startPc) := blk]
    {
      hide Placed, DirectMapped, SlotIndex;
      var idx := SlotIndex(blk.startPc);
      UnmarkKeeps(table[..], aliased, idx);
      SameEntries(UnmarkedSlots(table[..], aliased, idx), table[..]);
      UnmarkPhysicallyAliased(idx);
      FillKeeps(table[..], aliased, idx, blk);
      if !table[idx].valid {
        count := count + 1;
      }
      table[idx] := table[idx].(tagPc := blk.startPc, block := blk, valid := true);
      ListIfAliased(idx);
    }

    /** Puts a slot that has just been filled on the reverse list, if it belongs there. */
    method ListIfAliased(idx: nat)
      requires ListOk(table[..], aliased) && SlotsOk(table[..]) && ListingOkBut(table[..], idx)
      requires table.Length == TABLE_SIZE && count == |Contents()|
      requires idx < table.Length && table[idx].valid && table[idx].aliasedPosition == NOT_ALIASED
      modifies this`aliased, table
      ensures Valid() && Contents() == old(Contents())
    {
      hide Placed, DirectMapped, SlotIndex;
      if !DirectMapped(table[idx].block.startPc, table[idx].block.paddr) {
        SameEntries(table[..], table[..][idx := table[idx].(aliasedPosition := |aliased|)]);
        MarkPhysicallyAliased(idx);
      }
    }

    /** Builds and stores the block at `vaddr`; fails only when `vaddr` does not translate. */
    method Compile(vaddr: u64, c: Context, m: Memory) returns (built: Option<BasicBlock>)
      requires Valid()
      modifies this`aliased, this`count, table
      ensures Valid()
      ensures built == Fresh(c, m, vaddr)
      ensures Contents() ==
        if built.Some? then old(Contents())[SlotIndex(vaddr) := built.value] else old(Contents())
    {
      hide Translate, Read32, IsBranchOrJump, IsTerminal, Next, SlotIndex, DirectMapped, Valid, Contents, Compiling,
           Straight, StopsAtBranch;
      var first := Translate(c, vaddr, false);
      if first.Fault? {
        return None;
      }
      var insns: seq<u32>, endsWithBranch := [], false;
      var pc := vaddr;
      var i := 0;
      CompileStart(c, m, vaddr);
      while i < MAX_BLOCK_INSNS
        invariant 0 <= i <= MAX_BLOCK_INSNS && !endsWithBranch && Compiling(c, m, vaddr, pc, i, insns)
        invariant Valid() && Contents() == old(Contents())
      {
        CompileStep(c, m, vaddr, pc, i, insns);
        var t := Translate(c, pc, false);
        if t.Fault? {
          break;
        }
        var insn := Read32(m, t.paddr);
        insns := insns + [insn];
        if IsBranchOrJump(insn) {
          var delay := Translate(c, Next(pc), false);
          if delay.Mapped? {
            insns := insns + [Read32(m, delay.paddr)];
          }
          endsWithBranch := true;
          break;
        }
        if IsTerminal(insn) {
          break;
        }
        if Next(pc) % PAGE == 0 {
          break;
        }
        pc := Next(pc);
        i := i + 1;
      }
      if i == MAX_BLOCK_INSNS {
        CompileEnd(c, m, vaddr, pc, insns);
      }
      if insns == [] {
        return None;
      }
      var blk := BasicBlock(vaddr, first.paddr, insns, endsWithBranch);
      assert blk == FreshBlock(c, m, vaddr, first.paddr);
      Install(blk);
      return Some(blk);
    }

    /** Drops the blocks that overlap the written range and that one of the two passes finds. */
    method Invalidate(paddr: nat, size: nat)
      requires Valid()
      modifies this`aliased, this`count, table
      ensures Valid() && Contents() == AfterInvalidate(old(Contents()), paddr, size)
      ensures AllFindable(old(Contents())) && 0 < size < TABLE_SIZE * 4 ==>
        Contents() == Without(old(Contents()), paddr, size)
    {
      if size == 0 || size >= TABLE_SIZE * 4 {
        Clear();
        return;
      }
      ghost var was := Contents();
      if AllFindable(was) {
        InvalidateFindable(was, paddr, size);
      }
      hide AfterInvalidate, AllFindable, Without;
      SweepCandidates(paddr, size);
      SweepAliased(paddr, size, was);
    }

    /** First pass: the slots of the words from 32 before the range to its end. */
    method SweepCandidates(paddr: nat, size: nat)
      requires Valid() && size > 0
      modifies this`aliased, this`count, table
      ensures Valid()
      ensures Contents() ==
        Pruned(old(Contents()), FirstCandidate(paddr), (paddr + size - 1) / 4 + 1, paddr, size)
    {
      hide SlotsOk, ListOk, ListingOk, SlotIndex, Pruned, Overlaps, BlocksOf, Visited, Valid, Contents;
      var firstWord, lastWord := paddr / 4, (paddr + size - 1) / 4;
      var first := if firstWord > MAX_BLOCK_INSNS then firstWord - MAX_BLOCK_INSNS else 0;
      var word := first;
      ghost var was := Contents();
      PrunedNone(was, first, paddr, size);
      assert first == FirstCandidate(paddr) && word <= lastWord + 1;
      while word <= lastWord
        invariant first <= word <= lastWord + 1
        invariant Valid() && Contents() == Pruned(was, first, word, paddr, size)
      {
        PrunedNext(was, first, word, paddr, size);
        VisitCandidate(word % TABLE_SIZE, paddr, size);
        word := word + 1;
      }
    }

    /** Drops the slot's block if the write overlaps it. */
    method VisitCandidate(slotIndex: nat, paddr: nat, size: nat)
      requires Valid() && slotIndex < TABLE_SIZE
      modifies this`aliased, this`count, table
      ensures Valid()
      ensures var was := old(Contents());
        Contents() == if slotIndex in was && Overlaps(was[slotIndex], paddr, size) then was - {slotIndex} else was
    {
      var slot := table[slotIndex];
      assert slot == table[..][slotIndex];
      hide SlotsOk, ListOk, ListingOk;
      if slot.valid {
        if paddr < slot.block.paddr + 4 * |slot.block.insns| && paddr + size > slot.block.paddr {
          InvalidateSlot(slotIndex);
        }
      }
    }

    /** Second pass: the reverse list, swap-removing while walking it. */
    method SweepAliased(paddr: nat, size: nat, ghost was: Contents)
      requires Valid() && 0 < size < TABLE_SIZE * 4
      requires Contents() == Pruned(was, FirstCandidate(paddr), (paddr + size - 1) / 4 + 1, paddr, size)
      modifies this`aliased, this`count, table
      ensures Valid() && Contents() == AfterInvalidate(was, paddr, size)
    {
      ghost var mid := Contents();
      var end := paddr + size;
      var position := 0;
      assert ListClean(Contents(), aliased[..position], paddr, size);
      assert LostOnlyListed(Contents(), mid, paddr, size);
      hide SlotsOk, ListOk, ListingOk, LostOnlyListed, ListClean, Pruned, DirectMapped, AfterInvalidate;
      while position < |aliased|
        invariant Valid() && LostOnlyListed(Contents(), mid, paddr, size)
        invariant 0 <= position <= |aliased|
        invariant ListClean(Contents(), aliased[..position], paddr, size)
        decreases |aliased| - position
      {
        ListedSlot(table[..], aliased, position);
        var slotIndex := aliased[position];
        var slot := table[slotIndex];
        if paddr < slot.block.paddr + 4 * |slot.block.insns| && end > slot.block.paddr {
          ListedDrop(Contents(), mid, slotIndex, aliased[..position], paddr, size);
          InvalidateSlot(slotIndex);
        } else {
          ListStep(Contents(), aliased, position, paddr, size);
          position := position + 1;
        }
      }
      assert aliased[..position] == aliased;
      Swept(table[..], aliased, was, paddr, size);
    }
  }
}
