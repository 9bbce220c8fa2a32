/** The RDP fill rectangle: nested pixel loops that write the colour image in RDRAM in place. */
module FillRect {
  import opened Words
  import opened Bits

  /** `size` 2 is 16 bits a pixel and 3 is 32; the others are never drawn to. */
  datatype Image = Image(address: nat, width: nat, size: nat, valid: bool)

  datatype Scissor = Scissor(xh: nat, yh: nat, xl: nat, yl: nat, enabled: bool)

  /** Pixels from (xh, yh) up to but not including (xl, yl). */
  datatype Rect = Rect(xh: nat, yh: nat, xl: nat, yl: nat)

  /** The image a `SetColorImage` command leaves. */
  predicate ImageOk(image: Image) {
    image.valid ==> 1 <= image.width <= 1024 && image.address % 8 == 0 && image.address < 0x400_0000 && image.size < 4
  }

  predicate Drawable(image: Image) {
    image.valid && (image.size == 2 || image.size == 3)
  }

  function Bytes(image: Image): (n: nat)
    ensures n == 2 || n == 4
  {
    if image.size == 2 then 2 else 4
  }

  predicate ClipPoint(image: Image, scissor: Scissor, x: int, y: int) {
    && x >= 0 && y >= 0
    && (scissor.enabled ==> scissor.xh <= x < scissor.xl && scissor.yh <= y < scissor.yl)
    && (image.valid ==> x < image.width)
  }

  // ---------------------------------------------------------------- commands

  function Field(cmd: u64, shift: nat): (f: nat)
    requires shift == 0 || shift == 12 || shift == 32 || shift == 44
    ensures f < 0x1000
  {
    (if shift == 0 then cmd else if shift == 12 then cmd / 0x1000
     else if shift == 32 then cmd / 0x1_0000_0000 else cmd / 0x1000_0000_0000) % 0x1000
  }

  /** The low corner is rounded down and the high corner up from quarter pixels, and corners
      given in the wrong order are exchanged. */
  function RectOf(cmd: u64): (r: Rect)
    ensures r.xh <= r.xl <= 1024 && r.yh <= r.yl <= 1024
  {
    var (xl, yl) := ((Field(cmd, 44) + 3) / 4, (Field(cmd, 32) + 3) / 4);
    var (xh, yh) := (Field(cmd, 12) / 4, Field(cmd, 0) / 4);
    Rect(if xl < xh then xl else xh, if yl < yh then yl else yh, if xl < xh then xh else xl, if yl < yh then yh else yl)
  }

  /** The pixels a command covers, in quarter pixels: across and down, those that lie neither wholly
      before the low corner nor wholly after the high one; and with the corners the other way
      round, those that lie wholly between them. */
  lemma RectCovers(cmd: u64, x: nat, y: nat)
    ensures var (xl, yl) := (cmd / 0x1000_0000_0000 % 0x1000, cmd / 0x1_0000_0000 % 0x1000);
      var (xh, yh) := (cmd / 0x1000 % 0x1000, cmd % 0x1000);
      var r := RectOf(cmd);
      && (r.xh <= x < r.xl <==> (4 * x + 4 > xh && 4 * x < xl) || (4 * x >= xl && 4 * x + 4 <= xh))
      && (r.yh <= y < r.yl <==> (4 * y + 4 > yh && 4 * y < yl) || (4 * y >= yl && 4 * y + 4 <= yh))
  {
    var (xl, yl) := (Field(cmd, 44), Field(cmd, 32));
    var (xh, yh) := (Field(cmd, 12), Field(cmd, 0));
    assert xl == cmd / 0x1000_0000_0000 % 0x1000 && yl == cmd / 0x1_0000_0000 % 0x1000;
    assert xh == cmd / 0x1000 % 0x1000 && yh == cmd % 0x1000;
    hide Field;
  }

  // ---------------------------------------------------------------- what a fill means

  function PixelAddress(image: Image, x: nat, y: nat): nat {
    image.address + (y * image.width + x) * Bytes(image)
  }

  function Index(image: Image, a: nat): (i: nat)
    requires a >= image.address
  {
    (a - image.address) / Bytes(image)
  }

  /** The pixel is drawn: inside the rectangle, not clipped, and wholly inside RDRAM. */
  predicate Drawn(image: Image, scissor: Scissor, rect: Rect, size: nat, x: nat, y: nat) {
    && rect.xh <= x < rect.xl && rect.yh <= y < rect.yl
    && ClipPoint(image, scissor, x, y)
    && PixelAddress(image, x, y) + Bytes(image) - 1 < size
  }

  /** The byte belongs to a pixel that is drawn. */
  predicate Painted(image: Image, scissor: Scissor, rect: Rect, size: nat, a: nat)
    requires ImageOk(image) && image.valid
  {
    && a >= image.address
    && Drawn(image, scissor, rect, size, Index(image, a) % image.width, Index(image, a) / image.width)
  }

  /** Byte `k` of the big-endian fill word. */
  function FillByte(color: u32, k: nat): u8
    requires k < 4
  {
    if k == 0 then color / 0x100_0000 else if k == 1 then color / 0x1_0000 % 0x100
    else if k == 2 then color / 0x100 % 0x100 else color % 0x100
  }

  /** Memory after a fill: painted bytes take the fill word's byte for their own address, at
      either pixel size, and no other byte changes. */
  predicate Filled(before: seq<u8>, after: seq<u8>, image: Image, scissor: Scissor, rect: Rect, color: u32)
    requires ImageOk(image) && image.valid
  {
    && |after| == |before|
    && (forall a | 0 <= a < |after| ::
      after[a] == if Painted(image, scissor, rect, |before|, a) then FillByte(color, a % 4) else before[a])
  }

  /** Pixels are distinct places: a byte is one of the pixel's own exactly when its index
      decodes to that pixel. */
  lemma AddressInjective(image: Image, x: nat, y: nat, a: nat)
    requires ImageOk(image) && image.valid && x < image.width
    ensures PixelAddress(image, x, y) <= a < PixelAddress(image, x, y) + Bytes(image)
      <==> a >= image.address && Index(image, a) % image.width == x && Index(image, a) / image.width == y
  {
    var i := y * image.width + x;
    DivMod(i, image.width, y, x);
    if a >= image.address {
      var j := Index(image, a);
      if j % image.width == x && j / image.width == y {
        assert j == image.width * (j / image.width) + j % image.width;
        assert image.width * y == y * image.width;
        assert j == i;
      }
    }
  }

  // ---------------------------------------------------------------- counting

  function Least(a: int, b: int): int { if a < b then a else b }

  function Greatest(a: int, b: int): int { if a < b then b else a }

  /** Columns of the rectangle that survive clipping, up to column `x`. */
  function Columns(image: Image, scissor: Scissor, rect: Rect, x: int): (n: nat) {
    var low := if scissor.enabled then Greatest(rect.xh, scissor.xh) else rect.xh;
    var high := Least(x, if scissor.enabled then Least(image.width, scissor.xl) else image.width);
    Greatest(0, high - low)
  }

  function Rows(scissor: Scissor, rect: Rect, y: int): (n: nat) {
    var low := if scissor.enabled then Greatest(rect.yh, scissor.yh) else rect.yh;
    var high := if scissor.enabled then Least(y, scissor.yl) else y;
    Greatest(0, high - low)
  }

  /** The area of the rectangle inside the scissor and the image width. */
  function Area(image: Image, scissor: Scissor, rect: Rect): nat {
    Columns(image, scissor, rect, rect.xl) * Rows(scissor, rect, rect.yl)
  }

  // ---------------------------------------------------------------- progress of the loops

  /** Row-major order: the pixel comes before (x, y). */
  predicate Before(px: nat, py: nat, x: nat, y: nat) {
    py < y || (py == y && px < x)
  }

  /** Memory when every pixel before (x, y) has been dealt with. */
  ghost predicate FilledBefore(before: seq<u8>, after: seq<u8>, image: Image, scissor: Scissor, rect: Rect,
                               color: u32, x: nat, y: nat)
    requires ImageOk(image) && image.valid
  {
    && |after| == |before|
    && (forall a | 0 <= a < |after| ::
      (after[a] ==
        if Painted(image, scissor, rect, |before|, a) && Passed(image, a, x, y)
        then FillByte(color, a % 4) else before[a]))
  }

  predicate Passed(image: Image, a: nat, x: nat, y: nat)
    requires ImageOk(image) && image.valid && a >= image.address
  {
    Before(Index(image, a) % image.width, Index(image, a) / image.width, x, y)
  }

  /** Memory with one pixel drawn. */
  function PixelDrawn(memory: seq<u8>, image: Image, color: u32, x: nat, y: nat): (after: seq<u8>)
    ensures |after| == |memory|
  {
    seq(|memory|, a requires 0 <= a < |memory| =>
      if PixelAddress(image, x, y) <= a < PixelAddress(image, x, y) + Bytes(image)
      then FillByte(color, a % 4) else memory[a])
  }

  /** One pixel further: drawn when it is to be, and otherwise nothing changes. */
  lemma PixelAdvances(before: seq<u8>, memory: seq<u8>, image: Image, scissor: Scissor, rect: Rect,
                      color: u32, x: nat, y: nat)
    requires ImageOk(image) && image.valid
    requires FilledBefore(before, memory, image, scissor, rect, color, x, y)
    requires rect.xh <= x < rect.xl && rect.yh <= y < rect.yl
    ensures FilledBefore(before,
      if Drawn(image, scissor, rect, |before|, x, y) then PixelDrawn(memory, image, color, x, y) else memory,
      image, scissor, rect, color, x + 1, y)
  {
    var drawn := Drawn(image, scissor, rect, |before|, x, y);
    var after := if drawn then PixelDrawn(memory, image, color, x, y) else memory;
    assert drawn ==> x < image.width;
    hide Index, PixelAddress, FillByte, ClipPoint;
    forall a | 0 <= a < |after|
      ensures after[a] ==
        (if Painted(image, scissor, rect, |before|, a) && Passed(image, a, x + 1, y)
         then FillByte(color, a % 4) else before[a])
    {
      if drawn {
        AddressInjective(image, x, y, a);
      }
    }
  }

  lemma RowAdvances(before: seq<u8>, memory: seq<u8>, image: Image, scissor: Scissor, rect: Rect, color: u32, y: nat)
    requires ImageOk(image) && image.valid
    requires FilledBefore(before, memory, image, scissor, rect, color, rect.xl, y)
    ensures FilledBefore(before, memory, image, scissor, rect, color, rect.xh, y + 1)
  {
    hide Index, PixelAddress, FillByte, ClipPoint;
  }

  lemma FirstPixel(before: seq<u8>, image: Image, scissor: Scissor, rect: Rect, color: u32)
    requires ImageOk(image) && image.valid
    ensures FilledBefore(before, before, image, scissor, rect, color, rect.xh, rect.yh)
  {
    hide Index, PixelAddress, FillByte, ClipPoint;
  }

  lemma LastPixel(before: seq<u8>, memory: seq<u8>, image: Image, scissor: Scissor, rect: Rect, color: u32, y: nat)
    requires ImageOk(image) && image.valid && y >= rect.yl
    requires FilledBefore(before, memory, image, scissor, rect, color, rect.xh, y)
    ensures Filled(before, memory, image, scissor, rect, color)
  {
    hide Index, PixelAddress, FillByte, ClipPoint;
  }

  /** One more column counts one more pixel exactly when it is not clipped. */
  lemma ColumnAdvances(image: Image, scissor: Scissor, rect: Rect, x: nat, y: nat)
    requires image.valid && rect.xh <= x && rect.yh <= y
    ensures ClipPoint(image, scissor, x, y) && InRows(scissor, y)
      ==> Columns(image, scissor, rect, x + 1) == Columns(image, scissor, rect, x) + 1
    ensures !ClipPoint(image, scissor, x, y) && InRows(scissor, y)
      ==> Columns(image, scissor, rect, x + 1) == Columns(image, scissor, rect, x)
    ensures Rows(scissor, rect, y + 1) == Rows(scissor, rect, y) + (if InRows(scissor, y) then 1 else 0)
    ensures !InRows(scissor, y) ==> !ClipPoint(image, scissor, x, y)
  {
  }

  predicate InRows(scissor: Scissor, y: nat) {
    scissor.enabled ==> scissor.yh <= y < scissor.yl
  }

  // ---------------------------------------------------------------- the processor

  class Rdp {
    const rdram: array<u8>
    var image: Image
    var scissor: Scissor
    var fillColor: u32
    var fillPixels: nat

    constructor (rdram: array<u8>)
      ensures this.rdram == rdram && !image.valid && fillPixels == 0 && ImageOk(image)
    {
      this.rdram := rdram;
      image, scissor := Image(0, 0, 2, false), Scissor(0, 0, 320, 240, false);
      fillColor, fillPixels := 0, 0;
    }

    method SetColorImage(cmd: u64)
      modifies `image
      ensures ImageOk(image) && image.valid
      ensures image.width == cmd / 0x1_0000_0000 % 0x400 + 1 && image.address == cmd % 0x400_0000 / 8 * 8
      ensures image.size == cmd / 0x8_0000_0000_0000 % 4
    {
      image := Image(cmd % 0x400_0000 / 8 * 8, cmd / 0x1_0000_0000 % 0x400 + 1, cmd / 0x8_0000_0000_0000 % 4, true);
    }

    /** A pixel passes exactly when it lies wholly before the high corner, given in quarter pixels,
        and not wholly before the low one. */
    method SetScissor(cmd: u64)
      modifies `scissor
      ensures scissor.enabled
      ensures forall x: nat, y: nat :: ClipPoint(Image(0, 0, 2, false), scissor, x, y) <==>
        && 4 * x + 4 > Field(cmd, 44) && 4 * x + 4 <= Field(cmd, 12)
        && 4 * y + 4 > Field(cmd, 32) && 4 * y + 4 <= Field(cmd, 0)
    {
      scissor := Scissor(Field(cmd, 44) / 4, Field(cmd, 32) / 4, Field(cmd, 12) / 4, Field(cmd, 0) / 4, true);
    }

    /** Writes one pixel if it is not clipped and lies wholly inside RDRAM. */
    method WriteColorPixel(x: nat, y: nat, pix16: u16, pix32: u32, use32: bool)
      modifies rdram
      ensures var p := PixelAddress(image, x, y);
        rdram[..] ==
          if image.valid && ClipPoint(image, scissor, x, y) && p + Bytes(image) - 1 < rdram.Length
             && (image.size == 2 || image.size == 3 || use32)
          then Stored(old(rdram[..]), p, PixelOf(image, pix16, pix32, use32)) else old(rdram[..])
    {
      if !image.valid || !ClipPoint(image, scissor, x, y) || rdram.Length == 0 {
        return;
      }
      var addr := PixelAddress(image, x, y);
      hide PixelAddress, ClipPoint, FillByte, Packed5551, Stored, Half, Word;
      if image.size == 2 {
        if addr + 1 >= rdram.Length {
          return;
        }
        StoreHalf(addr, if use32 then Packed5551(pix32) else pix16);
      } else if image.size == 3 || use32 {
        if addr + 3 >= rdram.Length {
          return;
        }
        StoreWord(addr, pix32);
      }
    }

    method StoreHalf(addr: nat, value: u16)
      requires addr + 1 < rdram.Length
      modifies rdram
      ensures rdram[..] == Stored(old(rdram[..]), addr, Half(value))
    {
      rdram[addr] := value / 0x100;
      rdram[addr + 1] := value % 0x100;
    }

    method StoreWord(addr: nat, value: u32)
      requires addr + 3 < rdram.Length
      modifies rdram
      ensures rdram[..] == Stored(old(rdram[..]), addr, Word(value))
    {
      rdram[addr] := value / 0x100_0000;
      rdram[addr + 1] := value / 0x1_0000 % 0x100;
      rdram[addr + 2] := value / 0x100 % 0x100;
      rdram[addr + 3] := value % 0x100;
    }

    /** One pixel of a fill: counted when it is not clipped, even if it falls outside RDRAM. */
    method WriteFillPixel(x: nat, y: nat)
      requires ImageOk(image) && image.valid
      modifies `fillPixels, rdram
      ensures rdram[..] ==
        if && Drawable(image) && ClipPoint(image, scissor, x, y)
           && PixelAddress(image, x, y) + Bytes(image) - 1 < rdram.Length
        then PixelDrawn(old(rdram[..]), image, fillColor, x, y) else old(rdram[..])
      ensures fillPixels == old(fillPixels) + (if Drawable(image) && ClipPoint(image, scissor, x, y) then 1 else 0)
    {
      if !ClipPoint(image, scissor, x, y) {
        return;
      }
      if PixelAddress(image, x, y) + Bytes(image) - 1 < rdram.Length {
        PixelBytes(rdram[..], image, fillColor, x, y);
      }
      hide PixelDrawn, Stored, Half, Word, PixelAddress, Packed5551;
      if image.size == 2 {
        var addr := PixelAddress(image, x, y);
        var pix := if addr / 2 % 2 == 1 then fillColor % 0x1_0000 else fillColor / 0x1_0000;
        WriteColorPixel(x, y, pix, 0, false);
        fillPixels := fillPixels + 1;
      } else if image.size == 3 {
        WriteColorPixel(x, y, 0, fillColor, true);
        fillPixels := fillPixels + 1;
      }
    }

    /** Fills exactly the bytes of the rectangle inside the scissor, the image and RDRAM, and
        counts the area inside the scissor and the image. */
    method FillRectangle(cmd: u64)
      requires ImageOk(image)
      modifies `fillPixels, rdram
      ensures Drawable(image) ==>
        && Filled(old(rdram[..]), rdram[..], image, scissor, RectOf(cmd), fillColor)
        && fillPixels == old(fillPixels) + Area(image, scissor, RectOf(cmd))
      ensures !Drawable(image) ==> rdram[..] == old(rdram[..]) && fillPixels == old(fillPixels)
    {
      var xlFx, ylFx, xhFx, yhFx := Field(cmd, 44), Field(cmd, 32), Field(cmd, 12), Field(cmd, 0);
      var xh, yh, xl, yl := xhFx / 4, yhFx / 4, xlFx / 4, ylFx / 4;
      if xlFx % 4 != 0 {
        xl := xl + 1;
      }
      if ylFx % 4 != 0 {
        yl := yl + 1;
      }
      if xl < xh {
        xl, xh := xh, xl;
      }
      if yl < yh {
        yl, yh := yh, yl;
      }
      assert Rect(xh, yh, xl, yl) == RectOf(cmd);
      if !image.valid {
        return;
      }
      FillRows(RectOf(cmd), xh, yh, xl, yl);
    }

    method FillRows(ghost rect: Rect, xh: nat, yh: nat, xl: nat, yl: nat)
      requires rect == Rect(xh, yh, xl, yl) && xh <= xl && yh <= yl && ImageOk(image) && image.valid
      modifies `fillPixels, rdram
      ensures Drawable(image) ==>
        && Filled(old(rdram[..]), rdram[..], image, scissor, rect, fillColor)
        && fillPixels == old(fillPixels) + Area(image, scissor, rect)
      ensures !Drawable(image) ==> rdram[..] == old(rdram[..]) && fillPixels == old(fillPixels)
    {
      ghost var before, count, columns := rdram[..], fillPixels, Columns(image, scissor, rect, xl);
      FirstPixel(before, image, scissor, rect, fillColor);
      NoRows(image, scissor, rect);
      hide FilledBefore, Filled, Columns, Rows, ClipPoint, PixelAddress, InRows;
      var y := yh;
      while y < yl
        invariant yh <= y <= yl
        invariant if Drawable(image)
          then FilledBefore(before, rdram[..], image, scissor, rect, fillColor, xh, y)
            && fillPixels == count + columns * Rows(scissor, rect, y)
          else rdram[..] == before && fillPixels == count
      {
        FillRow(rect, before, xh, xl, y);
        ColumnAdvances(image, scissor, rect, xl, y);
        Product(columns, Rows(scissor, rect, y));
        y := y + 1;
      }
      if Drawable(image) {
        LastPixel(before, rdram[..], image, scissor, rect, fillColor, y);
      }
    }

    method FillRow(ghost rect: Rect, ghost before: seq<u8>, xh: nat, xl: nat, y: nat)
      requires rect.xh == xh <= xl == rect.xl && rect.yh <= y < rect.yl && ImageOk(image) && image.valid
      requires Drawable(image) ==> FilledBefore(before, rdram[..], image, scissor, rect, fillColor, xh, y)
      modifies `fillPixels, rdram
      ensures Drawable(image) ==> FilledBefore(before, rdram[..], image, scissor, rect, fillColor, xh, y + 1)
      ensures Drawable(image) ==>
        fillPixels == old(fillPixels) + (if InRows(scissor, y) then Columns(image, scissor, rect, xl) else 0)
      ensures !Drawable(image) ==> rdram[..] == old(rdram[..]) && fillPixels == old(fillPixels)
    {
      ghost var first, count := rdram[..], fillPixels;
      ghost var inRows := InRows(scissor, y);
      NoColumns(image, scissor, rect);
      assert Drawable(image) ==> |before| == rdram.Length;
      hide FilledBefore, Filled, Columns, Rows, ClipPoint, PixelAddress, InRows;
      var x := xh;
      while x < xl
        invariant xh <= x <= xl
        invariant if Drawable(image)
          then FilledBefore(before, rdram[..], image, scissor, rect, fillColor, x, y)
            && fillPixels == count + (if inRows then Columns(image, scissor, rect, x) else 0)
          else rdram[..] == first && fillPixels == count
      {
        ColumnAdvances(image, scissor, rect, x, y);
        if Drawable(image) {
          PixelAdvances(before, rdram[..], image, scissor, rect, fillColor, x, y);
        }
        WriteFillPixel(x, y);
        x := x + 1;
      }
      if Drawable(image) {
        RowAdvances(before, rdram[..], image, scissor, rect, fillColor, y);
      }
    }
  }

  /** A 32-bit pixel as 16 bits: the top five bits of each colour, and whether alpha is set. */
  function Packed5551(pix32: u32): u16 {
    pix32 / 0x800_0000 * 0x800 + pix32 / 0x8_0000 % 32 * 0x40 + pix32 / 0x800 % 32 * 2
    + (if pix32 % 0x100 != 0 then 1 else 0)
  }

  /** The bytes written: the image's size decides, and a 32-bit pixel is packed into 16 bits. */
  function PixelOf(image: Image, pix16: u16, pix32: u32, use32: bool): seq<u8> {
    if image.size == 2 then Half(if use32 then Packed5551(pix32) else pix16) else Word(pix32)
  }

  function Stored(memory: seq<u8>, p: nat, bytes: seq<u8>): seq<u8> {
    if p + |bytes| <= |memory| then memory[..p] + bytes + memory[p + |bytes|..] else memory
  }

  function Half(value: u16): seq<u8> {
    [value / 0x100, value % 0x100]
  }

  function Word(value: u32): seq<u8> {
    [value / 0x100_0000, value / 0x1_0000 % 0x100, value / 0x100 % 0x100, value % 0x100]
  }

  /** The half of the fill word chosen by the address, or the whole word, is the pixel's bytes. */
  lemma PixelBytes(memory: seq<u8>, image: Image, color: u32, x: nat, y: nat)
    requires ImageOk(image) && image.valid && PixelAddress(image, x, y) + Bytes(image) - 1 < |memory|
    ensures var p := PixelAddress(image, x, y);
      && (image.size == 2 ==>
        PixelDrawn(memory, image, color, x, y)
        == Stored(memory, p, Half(if p / 2 % 2 == 1 then color % 0x1_0000 else color / 0x1_0000)))
      && (image.size == 3 ==> PixelDrawn(memory, image, color, x, y) == Stored(memory, p, Word(color)))
  {
    var p := PixelAddress(image, x, y);
    PixelAligned(image, x, y);
    Residues(p);
    hide PixelAddress;
    if image.size == 2 {
      HalfBytes(color, p);
      var half := Half(if p / 2 % 2 == 1 then color % 0x1_0000 else color / 0x1_0000);
      hide Half, FillByte;
      assert PixelDrawn(memory, image, color, x, y) == Stored(memory, p, half);
    } else if image.size == 3 {
      WordBytes(color, p);
      var word := Word(color);
      hide Word, FillByte;
      assert PixelDrawn(memory, image, color, x, y) == Stored(memory, p, word);
    }
  }

  lemma PixelAligned(image: Image, x: nat, y: nat)
    requires ImageOk(image) && image.valid
    ensures PixelAddress(image, x, y) % Bytes(image) == 0
  {
    var i, a := y * image.width + x, image.address / 8;
    assert PixelAddress(image, x, y) == 8 * a + i * Bytes(image);
    hide PixelAddress;
    if image.size == 2 {
      DivMod(8 * a + i * 2, 2, 4 * a + i, 0);
    } else {
      DivMod(8 * a + i * 4, 4, 2 * a + i, 0);
    }
  }

  lemma Residues(p: nat)
    ensures p % 4 == 0 ==> (p + 1) % 4 == 1 && (p + 2) % 4 == 2 && (p + 3) % 4 == 3
    ensures p % 2 == 0 && p / 2 % 2 == 0 ==> p % 4 == 0
    ensures p % 2 == 0 && p / 2 % 2 == 1 ==> p % 4 == 2 && (p + 1) % 4 == 3
  {
    var q, r := p / 4, p % 4;
    assert p == 4 * q + r;
    if r == 0 {
      DivMod(p + 1, 4, q, 1);
      DivMod(p + 2, 4, q, 2);
      DivMod(p + 3, 4, q, 3);
    } else if r == 2 {
      DivMod(p, 2, 2 * q + 1, 0);
      DivMod(p + 1, 4, q, 3);
    } else {
      DivMod(p, 2, 2 * q + r / 2, 1);
    }
  }

  lemma HalfBytes(color: u32, p: nat)
    requires p % 2 == 0
    ensures Half(if p / 2 % 2 == 1 then color % 0x1_0000 else color / 0x1_0000)
         == [FillByte(color, p % 4), FillByte(color, (p + 1) % 4)]
  {
    Residues(p);
    HalvesOf(color);
    hide FillByte, Half;
  }

  lemma HalvesOf(color: u32)
    ensures Half(color / 0x1_0000) == [FillByte(color, 0), FillByte(color, 1)]
    ensures Half(color % 0x1_0000) == [FillByte(color, 2), FillByte(color, 3)]
  {
    var b3, b2, b1, b0 := color / 0x100_0000, color / 0x1_0000 % 0x100, color / 0x100 % 0x100, color % 0x100;
    assert color == b3 * 0x100_0000 + b2 * 0x1_0000 + b1 * 0x100 + b0;
  }

  lemma WordBytes(color: u32, p: nat)
    requires p % 4 == 0
    ensures Word(color)
         == [FillByte(color, p % 4), FillByte(color, (p + 1) % 4),
             FillByte(color, (p + 2) % 4), FillByte(color, (p + 3) % 4)]
  {
    Residues(p);
  }

  lemma NoRows(image: Image, scissor: Scissor, rect: Rect)
    ensures Rows(scissor, rect, rect.yh) == 0 && Columns(image, scissor, rect, rect.xl) * 0 == 0
  {
  }

  lemma NoColumns(image: Image, scissor: Scissor, rect: Rect)
    ensures Columns(image, scissor, rect, rect.xh) == 0
  {
  }

  lemma Product(c: nat, r: nat)
    ensures c * (r + 1) == c * r + c
  {
  }

  // ---------------------------------------------------------------- what a pixel shows

  /** After a fill a drawn pixel of a 32-bit image is the fill word, most significant byte first, and
      one of a 16-bit image is the upper half at every other pixel place and the lower between. */
  lemma PixelShows(before: seq<u8>, after: seq<u8>, image: Image, scissor: Scissor, rect: Rect, color: u32,
                   x: nat, y: nat, p: nat)
    requires ImageOk(image) && Drawable(image) && Filled(before, after, image, scissor, rect, color)
    requires rect.xh <= x < rect.xl && rect.yh <= y < rect.yl && ClipPoint(image, scissor, x, y)
    requires p == image.address + (y * image.width + x) * Bytes(image) && p + Bytes(image) <= |after|
    ensures if image.size == 3 then
        after[p] as int * 0x100_0000 + after[p + 1] as int * 0x1_0000 + after[p + 2] as int * 0x100 + after[p + 3]
        == color
      else after[p] as int * 0x100 + after[p + 1] == if p % 4 == 0 then color / 0x1_0000 else color % 0x1_0000
  {
    hide Filled, ClipPoint, FillByte;
    assert p == PixelAddress(image, x, y);
    PlaceOfPixel(image, y * image.width + x, p);
    hide PixelAddress, ImageOk;
    PixelByte(before, after, image, scissor, rect, color, x, y, p);
    PixelByte(before, after, image, scissor, rect, color, x, y, p + 1);
    if image.size == 3 {
      PixelByte(before, after, image, scissor, rect, color, x, y, p + 2);
      PixelByte(before, after, image, scissor, rect, color, x, y, p + 3);
    }
    ColorBytes(color);
  }

  lemma PixelByte(before: seq<u8>, after: seq<u8>, image: Image, scissor: Scissor, rect: Rect, color: u32,
                  x: nat, y: nat, a: nat)
    requires ImageOk(image) && Drawable(image) && Filled(before, after, image, scissor, rect, color)
    requires rect.xh <= x < rect.xl && rect.yh <= y < rect.yl && ClipPoint(image, scissor, x, y)
    requires var p := PixelAddress(image, x, y); p <= a < p + Bytes(image) <= |after|
    ensures after[a] == FillByte(color, a % 4)
  {
    AddressInjective(image, x, y, a);
    hide Index, FillByte, PixelAddress;
  }

  lemma PlaceOfPixel(image: Image, i: nat, p: nat)
    requires image.address % 8 == 0 && p == image.address + i * Bytes(image)
    ensures if image.size == 2 then
        (p % 4 == 0 || p % 4 == 2) && (p + 1) % 4 == p % 4 + 1
      else p % 4 == 0 && (p + 1) % 4 == 1 && (p + 2) % 4 == 2 && (p + 3) % 4 == 3
  {
    var q := image.address / 8;
    if image.size == 2 {
      DivMod(p, 4, 2 * q + i / 2, 2 * (i % 2));
      DivMod(p + 1, 4, 2 * q + i / 2, 2 * (i % 2) + 1);
    } else {
      DivMod(p, 4, 2 * q + i, 0);
      DivMod(p + 1, 4, 2 * q + i, 1);
      DivMod(p + 2, 4, 2 * q + i, 2);
      DivMod(p + 3, 4, 2 * q + i, 3);
    }
  }

  lemma ColorBytes(color: u32)
    ensures FillByte(color, 0) as int * 0x100_0000 + FillByte(color, 1) as int * 0x1_0000
            + FillByte(color, 2) as int * 0x100 + FillByte(color, 3) == color
    ensures FillByte(color, 0) as int * 0x100 + FillByte(color, 1) == color / 0x1_0000
    ensures FillByte(color, 2) as int * 0x100 + FillByte(color, 3) == color % 0x1_0000
  {
    var a, b := color / 0x1_0000, color % 0x1_0000;
    DivMod(color, 0x100_0000, a / 0x100, a % 0x100 * 0x1_0000 + b);
    DivMod(color, 0x100, a * 0x100 + b / 0x100, b % 0x100);
    DivMod(a * 0x100 + b / 0x100, 0x100, a, b / 0x100);
  }

  /** A 32-bit pixel on a 16-bit image keeps the upper five bits of red, green and blue, in bits 11,
      6 and 1 upwards, and in bit 0 whether it is at all opaque. */
  lemma PackedMeans(pix: u32, k: nat)
    requires k < 16
    ensures Bit(Packed5551(pix), k) <==>
      if k >= 11 then Bit(pix, k + 16) else if k >= 6 then Bit(pix, k + 13) else if k >= 1 then Bit(pix, k + 10)
      else pix % 0x100 != 0
  {
    PackedPowers();
    hide Bit, Pow2;
    var (r, g, b) := (pix / 0x800_0000, pix / 0x8_0000 % 32, pix / 0x800 % 32);
    var a := if pix % 0x100 != 0 then 1 else 0;
    PackedBits(r, g, b, a, k);
    if k >= 11 {
      SplitBits(27, 0x800_0000, r, pix % 0x800_0000, pix, k - 11);
    } else if k >= 6 {
      FiveBits(pix, 19, 0x8_0000, k - 6);
    } else if k >= 1 {
      FiveBits(pix, 11, 0x800, k - 1);
    } else {
      BitNext(a, 0);
    }
  }

  lemma PackedPowers()
    ensures Pow2(1) == 2 && Pow2(6) == 0x40 && Pow2(11) == 0x800 && Pow2(27) == 0x800_0000
  {
    PowersOfTwo();
    assert Pow2(10) == 0x400;
    assert Pow2(26) == 2 * Pow2(25);
  }

  lemma PackedBits(r: nat, g: nat, b: nat, a: nat, k: nat)
    requires r < 32 && g < 32 && b < 32 && a < 2
    ensures Bit(r * 0x800 + g * 0x40 + b * 2 + a, k) <==>
      if k >= 11 then Bit(r, k - 11) else if k >= 6 then Bit(g, k - 6) else if k >= 1 then Bit(b, k - 1) else Bit(a, 0)
  {
    PackedPowers();
    hide Bit, Pow2;
    FieldsBit(11, 0x800, r, g * 0x40 + b * 2 + a, r * 0x800 + g * 0x40 + b * 2 + a, k);
    FieldsBit(6, 0x40, g, b * 2 + a, g * 0x40 + b * 2 + a, k);
    FieldsBit(1, 2, b, a, b * 2 + a, k);
  }

  lemma FiveBits(pix: u32, n: nat, p: nat, k: nat)
    requires k < 5 && ((n == 19 && p == 0x8_0000) || (n == 11 && p == 0x800))
    ensures Bit(pix / p % 32, k) <==> Bit(pix, k + n)
  {
    PowersOfTwo();
    assert Pow2(11) == 0x800 by { assert Pow2(10) == 0x400; }
    hide Bit, Pow2;
    var q := pix / p;
    SplitBits(5, 32, q / 32, q % 32, q, k);
    SplitBits(n, p, q, pix % p, pix, k);
  }
}
