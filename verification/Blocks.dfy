/** Basic blocks: which words end one, and the block a compilation at a given
    address produces from the current translation context and memory. */
module Blocks {
  import opened Words
  import opened Translation
  import opened PhysicalMemory

  const MAX_BLOCK_INSNS := 32
  const PAGE := 0x1000

  datatype Option<+T> = None | Some(value: T)

  datatype BasicBlock = BasicBlock(startPc: u64, paddr: u32, insns: seq<u32>, endsWithBranch: bool)

  /** A register number. */
  type Reg = r: int | 0 <= r < 32

  function Op(w: u32): nat { w / 0x400_0000 }
  function Rs(w: u32): Reg { w / 0x20_0000 % 32 }
  function Rt(w: u32): Reg { w / 0x1_0000 % 32 }
  function Rd(w: u32): Reg { w / 0x800 % 32 }
  function Fn(w: u32): nat { w % 64 }

  /** Words followed by a delay slot, as the block cache recognises them. */
  predicate IsBranchOrJump(w: u32) {
    match Op(w)
    case 0x00 => Fn(w) == 0x08 || Fn(w) == 0x09
    case 0x01 => Rt(w) <= 3 || 0x10 <= Rt(w) <= 0x13
    case 0x11 => Rs(w) == 0x08
    case op => 2 <= op <= 7 || 0x14 <= op <= 0x17
  }

  /** Words that end a block without a delay slot, as the block cache recognises them. */
  predicate IsTerminal(w: u32) {
    if Op(w) == 0x00 then Fn(w) == 0x0C || Fn(w) == 0x0D
    else if Op(w) == 0x10 then
      if Rs(w) == 0x10 then Fn(w) in {0x01, 0x02, 0x06, 0x08, 0x18}
      else Rs(w) == 0x04 && Rd(w) in {10, 11, 12, 13, 16}
    else false
  }

  function Next(pc: u64): u64
  {
    (pc + 4) % TWO_TO_64
  }

  /** The cached delay slot of a branch at `pc`: missing when it does not translate. */
  function DelaySlot(c: Context, m: Memory, pc: u64): (slot: seq<u32>)
    ensures |slot| <= 1
  {
    match Translate(c, Next(pc), false)
    case Mapped(q) => [Read32(m, q)]
    case Fault(_) => []
  }

  /** The straight-line words from `pc` on, at most `budget` of them and a delay slot. */
  function Straight(c: Context, m: Memory, pc: u64, budget: nat): (insns: seq<u32>)
    ensures |insns| <= budget + 1
    ensures budget > 0 && Translate(c, pc, false).Mapped? ==> |insns| > 0
    decreases budget
  {
    hide Translate, Read32, IsBranchOrJump, IsTerminal, Next, DelaySlot;
    if budget == 0 then []
    else
      match Translate(c, pc, false)
      case Fault(_) => []
      case Mapped(p) =>
        var w := Read32(m, p);
        if IsBranchOrJump(w) then [w] + DelaySlot(c, m, pc)
        else if IsTerminal(w) || Next(pc) % PAGE == 0 then [w]
        else [w] + Straight(c, m, Next(pc), budget - 1)
  }

  /** The delay slot of the branch that ends the straight line, if any, physically
      follows the branch. */
  predicate Contiguous(c: Context, m: Memory, pc: u64, budget: nat)
    decreases budget
  {
    hide Translate, Read32, IsBranchOrJump, IsTerminal, Next;
    if budget == 0 then true
    else
      match Translate(c, pc, false)
      case Fault(_) => true
      case Mapped(p) =>
        var w := Read32(m, p);
        if IsBranchOrJump(w) then
          match Translate(c, Next(pc), false)
          case Mapped(q) => q == p + 4
          case Fault(_) => true
        else IsTerminal(w) || Next(pc) % PAGE == 0 || Contiguous(c, m, Next(pc), budget - 1)
  }

  /** True when the line stops at a branch or jump. */
  predicate StopsAtBranch(c: Context, m: Memory, pc: u64, budget: nat)
    decreases budget
  {
    hide Translate, Read32, IsBranchOrJump, IsTerminal, Next;
    if budget == 0 then false
    else
      match Translate(c, pc, false)
      case Fault(_) => false
      case Mapped(p) =>
        var w := Read32(m, p);
        IsBranchOrJump(w)
        || (!IsTerminal(w) && Next(pc) % PAGE != 0 && StopsAtBranch(c, m, Next(pc), budget - 1))
  }

  /** What `compile` builds at an address that translates to `p`. */
  function FreshBlock(c: Context, m: Memory, pc: u64, p: u32): BasicBlock
  {
    BasicBlock(pc, p, Straight(c, m, pc, MAX_BLOCK_INSNS), StopsAtBranch(c, m, pc, MAX_BLOCK_INSNS))
  }

  // ---------------------------------------------------------------- within a page

  /** Inside a page, the next instruction translates to the next word. */
  lemma NextTranslates(c: Context, pc: u64)
    requires pc % 4 == 0 && Next(pc) % PAGE != 0
    requires Translate(c, pc, false).Mapped?
    ensures Translate(c, Next(pc), false) == Mapped(Translate(c, pc, false).paddr + 4)
  {
    NextInPage(pc);
    hide Translate, Next;
    TranslatePageLocal(c, pc, Next(pc), false);
  }

  lemma NextInPage(pc: u64)
    requires pc % 4 == 0 && Next(pc) % PAGE != 0
    ensures Next(pc) % TWO_TO_32 / PAGE == pc % TWO_TO_32 / PAGE
    ensures Next(pc) % PAGE == pc % PAGE + 4
    ensures Next(pc) % 4 == 0
  {
    NotLastWord(pc);
    AddWithin(pc);
    NextAligned(pc);
    hide Next;
  }

  lemma NextAligned(pc: u64)
    requires pc % 4 == 0
    ensures (pc + 4) % 4 == 0
  {
  }

  lemma NotLastWord(pc: u64)
    requires pc % 4 == 0 && Next(pc) % PAGE != 0
    ensures pc % PAGE <= PAGE - 8 && Next(pc) == pc + 4
  {
    var n, r := pc / PAGE, pc % PAGE;
    assert pc == PAGE * n + r;
    assert r % 4 == 0;
    assert n < 0x10_0000_0000_0000;
    assert r == PAGE - 4 ==> pc + 4 == PAGE * (n + 1);
  }

  lemma AddWithin(pc: u64)
    requires pc % 0x1000 <= 0xFF8
    ensures (pc + 4) % 0x1_0000_0000 / 0x1000 == pc % 0x1_0000_0000 / 0x1000
    ensures (pc + 4) % 0x1000 == pc % 0x1000 + 4
  {
    var hi, n, r := PcParts(pc);
    PcPartsUnique(pc, hi, n, r);
    PcPartsUnique(pc + 4, hi, n, r + 4);
  }

  lemma PcParts(pc: nat) returns (hi: nat, n: nat, r: nat)
    ensures pc == 0x1_0000_0000 * hi + 0x1000 * n + r && n < 0x10_0000 && r < 0x1000
    ensures r == pc % 0x1000
  {
    hi, n, r := pc / 0x1000 / 0x10_0000, pc / 0x1000 % 0x10_0000, pc % 0x1000;
  }

  lemma PcPartsUnique(pc: nat, hi: nat, n: nat, r: nat)
    requires pc == 0x1_0000_0000 * hi + 0x1000 * n + r && n < 0x10_0000 && r < 0x1000
    ensures pc % 0x1_0000_0000 / 0x1000 == n && pc % 0x1000 == r
  {
    DivMod(pc, 0x1_0000_0000, hi, 0x1000 * n + r);
    DivMod(0x1000 * n + r, 0x1000, n, r);
    DivMod(pc, 0x1000, 0x10_0000 * hi + n, r);
  }

  // ---------------------------------------------------------------- memory frame

  /** Every word of a straight line lies in `[p, p + 4 * |line|)`: memories that agree
      there, word by word, give the same line. */
  ghost predicate AgreeOn(m: Memory, n: Memory, p: nat, words: nat) {
    forall i :: 0 <= i < words ==> Read32(n, p + 4 * i) == Read32(m, p + 4 * i)
  }

  lemma {:induction false} StraightFrame(c: Context, m: Memory, n: Memory, pc: u64, budget: nat)
    requires pc % 4 == 0 && Translate(c, pc, false).Mapped?
    requires Contiguous(c, m, pc, budget)
    requires AgreeOn(m, n, Translate(c, pc, false).paddr, |Straight(c, m, pc, budget)|)
    ensures Straight(c, n, pc, budget) == Straight(c, m, pc, budget)
    ensures Contiguous(c, n, pc, budget)
    ensures StopsAtBranch(c, n, pc, budget) == StopsAtBranch(c, m, pc, budget)
    decreases budget
  {
    hide Translate, Read32, IsBranchOrJump, IsTerminal, Next;
    if budget > 0 {
      var p := Translate(c, pc, false).paddr;
      var w := Read32(m, p);
      var line := Straight(c, m, pc, budget);
      assert Read32(n, p + 4 * 0) == w;
      if IsBranchOrJump(w) {
        if Translate(c, Next(pc), false).Mapped? {
          assert |line| == 2;
          assert Read32(n, p + 4 * 1) == Read32(m, p + 4 * 1);
        }
      } else if !IsTerminal(w) && Next(pc) % PAGE != 0 {
        NextTranslates(c, pc);
        NextInPage(pc);
        var rest := Straight(c, m, Next(pc), budget - 1);
        forall i | 0 <= i < |rest| ensures Read32(n, p + 4 + 4 * i) == Read32(m, p + 4 + 4 * i) {
          assert Read32(n, p + 4 * (i + 1)) == Read32(m, p + 4 * (i + 1));
        }
        StraightFrame(c, m, n, Next(pc), budget - 1);
      }
    }
  }

  /** A write outside the words of a line leaves the line alone. */
  lemma StraightUntouched(c: Context, m: Memory, n: Memory, pc: u64, budget: nat, p: nat, size: nat)
    requires pc % 4 == 0 && Translate(c, pc, false).Mapped? && Contiguous(c, m, pc, budget)
    requires ChangedOnly(m, n, p, size)
    requires var q, bytes := Translate(c, pc, false).paddr, 4 * |Straight(c, m, pc, budget)|;
      Settled(m, q, bytes) && (p + size <= q || q + bytes <= p)
    ensures Straight(c, n, pc, budget) == Straight(c, m, pc, budget)
    ensures Contiguous(c, n, pc, budget)
    ensures StopsAtBranch(c, n, pc, budget) == StopsAtBranch(c, m, pc, budget)
  {
    hide Translate, Read32, ChangedOnly, Straight;
    var q := Translate(c, pc, false).paddr;
    forall i | 0 <= i < |Straight(c, m, pc, budget)|
      ensures Read32(n, q + 4 * i) == Read32(m, q + 4 * i)
    {
      ReadFrame(m, n, p, size, q + 4 * i);
    }
    StraightFrame(c, m, n, pc, budget);
  }

  /** A smaller budget only cuts the line short. */
  lemma {:induction false} StraightPrefix(c: Context, m: Memory, pc: u64, small: nat, large: nat)
    requires small <= large
    ensures Straight(c, m, pc, small) <= Straight(c, m, pc, large)
    ensures Contiguous(c, m, pc, large) ==> Contiguous(c, m, pc, small)
    decreases small
  {
    hide Translate, Read32, IsBranchOrJump, IsTerminal, Next;
    if small > 0 {
      StraightPrefix(c, m, Next(pc), small - 1, large - 1);
    }
  }

  /** Memories that compile the same line agree on whether it is contiguous. */
  lemma {:induction false} SameLine(c: Context, m: Memory, n: Memory, pc: u64, budget: nat)
    requires Straight(c, m, pc, budget) == Straight(c, n, pc, budget)
    ensures Contiguous(c, m, pc, budget) == Contiguous(c, n, pc, budget)
    decreases budget
  {
    hide Translate, Read32, IsBranchOrJump, IsTerminal, Next, DelaySlot;
    if budget > 0 && Translate(c, pc, false).Mapped? {
      var w := Read32(m, Translate(c, pc, false).paddr);
      assert Straight(c, m, pc, budget)[0] == w;
      assert Straight(c, n, pc, budget)[0] == Read32(n, Translate(c, pc, false).paddr);
      if !IsBranchOrJump(w) && !IsTerminal(w) && Next(pc) % PAGE != 0 {
        assert Straight(c, m, pc, budget)[1..] == Straight(c, m, Next(pc), budget - 1);
        assert Straight(c, n, pc, budget)[1..] == Straight(c, n, Next(pc), budget - 1);
        SameLine(c, m, n, Next(pc), budget - 1);
      }
    }
  }

  // ---------------------------------------------------------------- privilege

  /** Where the delay slot of the branch that ends the straight line is, if one does. */
  function SlotAddress(c: Context, m: Memory, pc: u64, budget: nat): Option<u64>
    decreases budget
  {
    hide Translate, Read32, IsBranchOrJump, IsTerminal, Next;
    if budget == 0 then None
    else
      match Translate(c, pc, false)
      case Fault(_) => None
      case Mapped(p) =>
        var w := Read32(m, p);
        if IsBranchOrJump(w) then Some(Next(pc))
        else if IsTerminal(w) || Next(pc) % PAGE == 0 then None
        else SlotAddress(c, m, Next(pc), budget - 1)
  }

  /** The delay slot is within reach of a mode, or does not translate in kernel mode either. */
  predicate SlotWithin(c: Context, slot: Option<u64>) {
    slot.Some? ==>
      Reachable(c.mode, slot.value % TWO_TO_32) || Translate(Kernel(c), slot.value, false).Fault?
  }

  /** Compiled from an address both modes can reach, two modes give the same line exactly when
      they agree on whether its delay slot is within reach. */
  lemma {:induction false} StraightByMode(c: Context, d: Context, m: Memory, pc: u64, budget: nat)
    requires pc % 4 == 0 && Kernel(c) == Kernel(d)
    requires Reachable(c.mode, pc % TWO_TO_32) && Reachable(d.mode, pc % TWO_TO_32)
    ensures var slot := SlotAddress(Kernel(c), m, pc, budget);
      && (Straight(c, m, pc, budget) == Straight(d, m, pc, budget) <==> (SlotWithin(c, slot) <==> SlotWithin(d, slot)))
      && ((SlotWithin(c, slot) <==> SlotWithin(d, slot)) ==>
            (Contiguous(c, m, pc, budget) <==> Contiguous(d, m, pc, budget)))
    ensures StopsAtBranch(c, m, pc, budget) == StopsAtBranch(d, m, pc, budget)
    decreases budget
  {
    hide Translate, Read32, IsBranchOrJump, IsTerminal, Next, Reachable;
    if budget > 0 {
      TranslateByMode(c, pc, false);
      TranslateByMode(d, pc, false);
      TranslateByMode(c, Next(pc), false);
      TranslateByMode(d, Next(pc), false);
      var t := Translate(Kernel(c), pc, false);
      if t.Mapped? {
        var w := Read32(m, t.paddr);
        if !IsBranchOrJump(w) && !IsTerminal(w) && Next(pc) % PAGE != 0 {
          NextInPage(pc);
          ReachablePage(c.mode, pc % TWO_TO_32, Next(pc) % TWO_TO_32);
          ReachablePage(d.mode, pc % TWO_TO_32, Next(pc) % TWO_TO_32);
          StraightByMode(c, d, m, Next(pc), budget - 1);
          var rest, other := Straight(c, m, Next(pc), budget - 1), Straight(d, m, Next(pc), budget - 1);
          assert ([w] + rest)[1..] == rest && ([w] + other)[1..] == other;
        }
      }
    }
  }

  /** The delay slot's place: `k` words after the start of the line in address, and physically
      exactly when the line is contiguous; if not, it starts a page. */
  lemma {:induction false} SlotPlace(c: Context, m: Memory, pc: u64, budget: nat)
    requires pc % 4 == 0 && Translate(c, pc, false).Mapped?
    requires var s := SlotAddress(c, m, pc, budget); s.Some? && Translate(c, s.value, false).Mapped?
    ensures var p := Translate(c, pc, false).paddr;
      var q := Translate(c, SlotAddress(c, m, pc, budget).value, false).paddr;
      var k := |Straight(c, m, pc, budget)| - 1;
      && 1 <= k <= budget && (Contiguous(c, m, pc, budget) <==> q == p + 4 * k)
      && (q == p + 4 * k || (q % PAGE == 0 && p % PAGE + 4 * k == PAGE))
      && Straight(c, m, pc, budget)[k] == Read32(m, q)
    decreases budget
  {
    hide Translate, Read32, IsBranchOrJump, IsTerminal;
    if budget > 0 {
      var p := Translate(c, pc, false).paddr;
      var w := Read32(m, p);
      if Next(pc) % PAGE != 0 {
        NextTranslates(c, pc);
        NextInPage(pc);
        FrameOffset(c, pc);
        FrameOffset(c, Next(pc));
        if !IsBranchOrJump(w) {
          SlotPlace(c, m, Next(pc), budget - 1);
        }
      } else {
        LastWord(pc);
        FrameOffset(c, pc);
        if Translate(c, Next(pc), false).Mapped? {
          FrameOffset(c, Next(pc));
        }
      }
    }
  }

  lemma LastWord(pc: u64)
    requires pc % 4 == 0 && Next(pc) % PAGE == 0
    ensures pc % PAGE == PAGE - 4
  {
  }

  lemma FrameOffset(c: Context, pc: u64)
    requires Translate(c, pc, false).Mapped?
    ensures Translate(c, pc, false).paddr % PAGE == pc % PAGE
  {
    hide Translate;
    TranslatePageLocal(c, pc, pc, false);
  }

  /** Memories that agree on the words before the delay slot compile to the same line but for
      the word of the slot. */
  lemma {:induction false} SlotRewritten(c: Context, m: Memory, n: Memory, pc: u64, budget: nat, k: nat)
    requires pc % 4 == 0 && Translate(c, pc, false).Mapped?
    requires var s := SlotAddress(c, m, pc, budget); s.Some? && Translate(c, s.value, false).Mapped?
    requires k + 1 == |Straight(c, m, pc, budget)|
    requires AgreeOn(m, n, Translate(c, pc, false).paddr, k)
    ensures SlotAddress(c, n, pc, budget) == SlotAddress(c, m, pc, budget)
    ensures |Straight(c, n, pc, budget)| == |Straight(c, m, pc, budget)|
    decreases budget
  {
    hide Translate, Read32, IsBranchOrJump, IsTerminal, Next;
    if budget > 0 {
      var p := Translate(c, pc, false).paddr;
      var w := Read32(m, p);
      SlotPlace(c, m, pc, budget);
      assert Read32(n, p + 4 * 0) == w;
      if !IsBranchOrJump(w) {
        NextTranslates(c, pc);
        NextInPage(pc);
        forall i | 0 <= i < k - 1 ensures Read32(n, p + 4 + 4 * i) == Read32(m, p + 4 + 4 * i) {
          assert Read32(n, p + 4 * (i + 1)) == Read32(m, p + 4 * (i + 1));
        }
        SlotPlace(c, m, Next(pc), budget - 1);
        SlotRewritten(c, m, n, Next(pc), budget - 1, k - 1);
      }
    }
  }

  /** The cached words are exactly the words of memory at consecutive addresses. */
  lemma {:induction false} StraightReadsMemory(c: Context, m: Memory, pc: u64, budget: nat, i: nat)
    requires pc % 4 == 0 && Translate(c, pc, false).Mapped?
    requires Contiguous(c, m, pc, budget) && i < |Straight(c, m, pc, budget)|
    ensures Straight(c, m, pc, budget)[i] == Read32(m, Translate(c, pc, false).paddr + 4 * i)
    decreases budget
  {
    hide Translate, Read32, IsBranchOrJump, IsTerminal, Next;
    var p := Translate(c, pc, false).paddr;
    var w := Read32(m, p);
    if i > 0 && !IsBranchOrJump(w) {
      NextTranslates(c, pc);
      NextInPage(pc);
      StraightReadsMemory(c, m, Next(pc), budget - 1, i - 1);
      assert p + 4 + 4 * (i - 1) == p + 4 * i;
    }
  }
}
