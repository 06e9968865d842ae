/**
 * The colour rule every video generator shares, on the 320x240 picture the
 * guest sees: the tile map at 0xF800 names a tile per 8x8 cell, the glyph
 * table at 0xF000 gives 8 rows of 8 bits per tile (most significant bit
 * leftmost), a set bit is drawn in the tile's foreground colour and a
 * clear bit in palette entry 6. Also the ESP32 VGA host's scanline
 * callback, which shows each picture pixel as a 2x2 block on a 640x480
 * mode.
 */
module Raster {
  import opened Bus

  const WIDTH := 320
  const HEIGHT := 240
  /** Palette entry for clear glyph bits. */
  const BACKGROUND := 6
  /** Palette entry for tiles outside 8..31. */
  const WHITE := 7

  /** Where the tile of cell (row, col) lives: inside the 1200-byte tile map. */
  function TileAddr(row: int, col: int): (a: int)
    requires 0 <= row < 30 && 0 <= col < 40
    ensures TILE_MAP <= a < TILE_MAP + 1200
  {
    TILE_MAP + row * 40 + col
  }

  /** Where row `line` of tile `tile`'s glyph lives: inside the glyph table. */
  function GlyphAddr(tile: Byte, line: int): (a: int)
    requires 0 <= line < 8
    ensures CHAR_TABLE <= a < TILE_MAP
  {
    CHAR_TABLE + tile as int * 8 + line
  }

  /** The foreground palette entry of a tile; never the background entry. */
  function Foreground(tile: Byte): (i: int)
    ensures 0 <= i < 8 && i != BACKGROUND
    ensures 8 <= tile < 32 ==> i == (tile - 8) % 6
    ensures !(8 <= tile < 32) ==> i == WHITE
  {
    if 8 <= tile < 32 then (tile - 8) % 6 else WHITE
  }

  /** The C test `d & mask`. */
  predicate Masked(d: Byte, mask: bv8)
  {
    (d as bv8) & mask != 0
  }

  /**
   * Whether pixel `p` (0 is leftmost) of glyph row `d` is set: binary digit
   * 7 - p of the byte, so the leftmost pixel is the most significant bit.
   */
  predicate BitSet(d: Byte, p: int)
    requires 0 <= p < 8
  {
    if p == 0 then d / 0x80 == 1
    else if p == 1 then (d / 0x40) % 2 == 1
    else if p == 2 then (d / 0x20) % 2 == 1
    else if p == 3 then (d / 0x10) % 2 == 1
    else if p == 4 then (d / 0x08) % 2 == 1
    else if p == 5 then (d / 0x04) % 2 == 1
    else if p == 6 then (d / 0x02) % 2 == 1
    else d % 2 == 1
  }

  /** Each single-bit mask tests one binary digit of the byte. */
  lemma MaskBit0(d: Byte)
    ensures Masked(d, 0x80) <==> d / 0x80 == 1
  {
  }

  lemma MaskBit1(d: Byte)
    ensures Masked(d, 0x40) <==> (d / 0x40) % 2 == 1
  {
  }

  lemma MaskBit2(d: Byte)
    ensures Masked(d, 0x20) <==> (d / 0x20) % 2 == 1
  {
  }

  lemma MaskBit3(d: Byte)
    ensures Masked(d, 0x10) <==> (d / 0x10) % 2 == 1
  {
  }

  lemma MaskBit4(d: Byte)
    ensures Masked(d, 0x08) <==> (d / 0x08) % 2 == 1
  {
  }

  lemma MaskBit5(d: Byte)
    ensures Masked(d, 0x04) <==> (d / 0x04) % 2 == 1
  {
  }

  lemma MaskBit6(d: Byte)
    ensures Masked(d, 0x02) <==> (d / 0x02) % 2 == 1
  {
  }

  lemma MaskBit7(d: Byte)
    ensures Masked(d, 0x01) <==> d % 2 == 1
  {
  }

  /** The C test `d & (0x80 >> p)` picks exactly pixel `p`. */
  lemma MaskPicksPixel(d: Byte, p: int)
    requires 0 <= p < 8
    ensures Masked(d, (0x80 as bv8) >> p) <==> BitSet(d, p)
  {
    if p == 0 {
      assert (0x80 as bv8) >> 0 == 0x80;
      MaskBit0(d);
    } else if p == 1 {
      assert (0x80 as bv8) >> 1 == 0x40;
      MaskBit1(d);
    } else if p == 2 {
      assert (0x80 as bv8) >> 2 == 0x20;
      MaskBit2(d);
    } else if p == 3 {
      assert (0x80 as bv8) >> 3 == 0x10;
      MaskBit3(d);
    } else if p == 4 {
      assert (0x80 as bv8) >> 4 == 0x08;
      MaskBit4(d);
    } else if p == 5 {
      assert (0x80 as bv8) >> 5 == 0x04;
      MaskBit5(d);
    } else if p == 6 {
      assert (0x80 as bv8) >> 6 == 0x02;
      MaskBit6(d);
    } else {
      assert (0x80 as bv8) >> 7 == 0x01;
      MaskBit7(d);
    }
  }

  /** The colour of pixel `p` of glyph row `d`. */
  function Shade<C>(d: Byte, p: int, fg: C, bg: C): C
    requires 0 <= p < 8
  {
    if BitSet(d, p) then fg else bg
  }

  /** The expression `d & (0x80 >> p) ? fg : bg` every generator uses. */
  method Ink<C>(d: Byte, p: int, fg: C, bg: C) returns (color: C)
    requires 0 <= p < 8
    ensures color == Shade(d, p, fg, bg)
  {
    MaskPicksPixel(d, p);
    color := if Masked(d, (0x80 as bv8) >> p) then fg else bg;
  }

  /** The tile shown at picture pixel (y, x). */
  function TileAt(m: Mem, y: int, x: int): Byte
    requires 0 <= y < HEIGHT && 0 <= x < WIDTH
  {
    m[TileAddr(y / 8, x / 8)]
  }

  /** The glyph row that holds picture pixel (y, x). */
  function GlyphRowAt(m: Mem, y: int, x: int): Byte
    requires 0 <= y < HEIGHT && 0 <= x < WIDTH
  {
    m[GlyphAddr(TileAt(m, y, x), y % 8)]
  }

  /**
   * The palette entry of picture pixel (y, x): the tile's foreground when
   * the glyph bit is set, the background otherwise.
   */
  function PaletteIndex(m: Mem, y: int, x: int): (i: int)
    requires 0 <= y < HEIGHT && 0 <= x < WIDTH
    ensures 0 <= i < 8
    ensures i == BACKGROUND <==> !BitSet(GlyphRowAt(m, y, x), x % 8)
    ensures i != BACKGROUND ==> i == Foreground(TileAt(m, y, x))
  {
    if BitSet(GlyphRowAt(m, y, x), x % 8) then Foreground(TileAt(m, y, x)) else BACKGROUND
  }

  /** The colour of picture pixel (y, x) under palette `pal`. */
  function Pixel<C>(m: Mem, pal: seq<C>, y: int, x: int): C
    requires |pal| == 8 && 0 <= y < HEIGHT && 0 <= x < WIDTH
  {
    pal[PaletteIndex(m, y, x)]
  }

  /** Two memories that agree on 0xF000..0xFCAF. */
  predicate SameVideo(m1: Mem, m2: Mem)
  {
    forall a :: CHAR_TABLE <= a < TILE_MAP + 1200 ==> m1[a] == m2[a]
  }

  /**
   * The picture reads nothing but the glyph table and the 1200-byte tile
   * map: memories that agree there show the same picture.
   */
  lemma PictureReadsOnlyVideo(m1: Mem, m2: Mem, y: int, x: int)
    requires SameVideo(m1, m2)
    requires 0 <= y < HEIGHT && 0 <= x < WIDTH
    ensures PaletteIndex(m1, y, x) == PaletteIndex(m2, y, x)
  {
    var t := TileAddr(y / 8, x / 8);
    assert m1[t] == m2[t];
    var g := GlyphAddr(m1[t], y % 8);
    assert m1[g] == m2[g];
  }

  // ---------------------------------------------------------------
  // The ESP32 VGA host: 640x480, each picture pixel drawn as 2x2.

  const VGA_WIDTH := 640
  const VGA_HEIGHT := 480

  /** Output pixel (scanLine, x) of the 640x480 mode. */
  function VgaPixel(m: Mem, pal: seq<Byte>, scanLine: int, x: int): Byte
    requires |pal| == 8 && 0 <= scanLine < VGA_HEIGHT && 0 <= x < VGA_WIDTH
  {
    Pixel(m, pal, scanLine / 2, x / 2)
  }

  /** Picture pixel (y, col * 8 + p) is pixel p of cell column col. */
  lemma CellColumn(col: int, p: int)
    requires 0 <= col < 40 && 0 <= p < 8
    ensures (col * 8 + p) / 8 == col && (col * 8 + p) % 8 == p
    ensures (col * 16 + 2 * p) / 2 == col * 8 + p && (col * 16 + 2 * p + 1) / 2 == col * 8 + p
  {
  }

  /** What the callback computes for pixel p of column col is the 2x2 block's colour. */
  lemma VgaBlock(m: Mem, pal: seq<Byte>, scanLine: int, col: int, p: int, tile: Byte, dat: Byte)
    requires |pal| == 8 && 0 <= scanLine < VGA_HEIGHT && 0 <= col < 40 && 0 <= p < 8
    requires tile == m[TILE_MAP + (scanLine / 16) * 40 + col]
    requires dat == m[CHAR_TABLE + tile as int * 8 + (scanLine % 16) / 2]
    ensures VgaPixel(m, pal, scanLine, col * 16 + 2 * p) == (if BitSet(dat, p) then pal[Foreground(tile)] else pal[BACKGROUND])
    ensures VgaPixel(m, pal, scanLine, col * 16 + 2 * p + 1) == VgaPixel(m, pal, scanLine, col * 16 + 2 * p)
  {
    CellColumn(col, p);
    var y := scanLine / 2;
    assert y / 8 == scanLine / 16 && y % 8 == (scanLine % 16) / 2;
  }

  /** Output column x of the 640-pixel line lies in tile column col. */
  predicate InTileColumn(x: int, col: int)
  {
    col * 16 <= x < col * 16 + 16 || VGA_WIDTH + col * 16 <= x < VGA_WIDTH + col * 16 + 16
  }

  /** The inner loop of the callback: the 16 pixels of tile column `col`, on both lines. */
  method DrawTileColumn(dest: array<Byte>, col: int, tileDat: Byte, fgcolor: Byte, bgcolor: Byte)
    requires dest.Length == 2 * VGA_WIDTH && 0 <= col < 40
    modifies dest
    ensures forall x :: 0 <= x < dest.Length && !InTileColumn(x, col) ==> dest[x] == old(dest[x])
    ensures forall x :: col * 16 <= x < col * 16 + 16 ==>
      dest[x] == Shade(tileDat, (x - col * 16) / 2, fgcolor, bgcolor) && dest[VGA_WIDTH + x] == dest[x]
  {
    var width := VGA_WIDTH;
    for p := 0 to 8
      invariant forall x :: 0 <= x < dest.Length && !InTileColumn(x, col) ==> dest[x] == old(dest[x])
      invariant forall x :: col * 16 <= x < col * 16 + 2 * p ==>
        dest[x] == Shade(tileDat, (x - col * 16) / 2, fgcolor, bgcolor) && dest[width + x] == dest[x]
    {
      var color := Ink(tileDat, p, fgcolor, bgcolor);
      var x := col * 16 + 2 * p;
      dest[x] := color;
      dest[x + 1] := color;
      dest[width + x] := color;
      dest[width + x + 1] := color;
    }
  }

  /**
   * The callback for one pair of output lines: both lines of `dest` get the
   * picture row `scanLine / 2`, each picture pixel twice; the frame is done
   * when the pair ends on the last line. The tile line is `(scanLine & 0xf) >> 1`,
   * written here as `(scanLine % 16) / 2`, the same for scanLine >= 0.
   */
  method DrawScanline(ram: array<Byte>, pal: seq<Byte>, dest: array<Byte>, scanLine: int) returns (frameDone: bool)
    requires ram.Length == RAM_SIZE && |pal| == 8 && dest.Length == 2 * VGA_WIDTH && ram != dest
    requires 0 <= scanLine < VGA_HEIGHT
    modifies dest
    ensures forall x :: 0 <= x < VGA_WIDTH ==> dest[x] == VgaPixel(ram[..], pal, scanLine, x)
    ensures forall x :: VGA_WIDTH <= x < 2 * VGA_WIDTH ==> dest[x] == VgaPixel(ram[..], pal, scanLine, x - VGA_WIDTH)
    ensures frameDone <==> scanLine + 2 == VGA_HEIGHT
  {
    ghost var m := ram[..];
    ghost var want := seq(VGA_WIDTH, x requires 0 <= x < VGA_WIDTH => VgaPixel(m, pal, scanLine, x));
    var bgcolor := pal[BACKGROUND];
    var width := VGA_WIDTH;
    for col := 0 to 40
      invariant forall x :: 0 <= x < col * 16 ==> dest[x] == want[x]
      invariant forall x :: width <= x < width + col * 16 ==> dest[x] == want[x - width]
    {
      var tileNum := ram[TILE_MAP + (scanLine / 16) * 40 + col];
      var tileLine := (scanLine % 16) / 2;
      var tileDat := ram[CHAR_TABLE + tileNum as int * 8 + tileLine];
      var fgcolor := pal[WHITE];
      if 8 <= tileNum < 32 {
        fgcolor := pal[(tileNum - 8) % 6];
      }
      assert fgcolor == pal[Foreground(tileNum)];
      DrawTileColumn(dest, col, tileDat, fgcolor, bgcolor);
      forall x | col * 16 <= x < col * 16 + 16
        ensures dest[x] == want[x] && dest[width + x] == want[x]
      {
        var p := (x - col * 16) / 2;
        VgaBlock(m, pal, scanLine, col, p, tileNum, tileDat);
        assert x == col * 16 + 2 * p || x == col * 16 + 2 * p + 1;
      }
      forall x | width <= x < width + col * 16 + 16
        ensures dest[x] == want[x - width]
      {
        if x >= width + col * 16 {
          assert dest[width + (x - width)] == want[x - width];
        } else {
          assert !InTileColumn(x, col);
        }
      }
    }
    frameDone := scanLine + 2 == VGA_HEIGHT;
  }
}
