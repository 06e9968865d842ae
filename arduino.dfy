/**
 * The ESP32 host built on the Arduino framework: its scanline callback,
 * which draws eight 320-pixel rows of the picture per call, and `errPrint`,
 * which puts a message straight into the tile map.
 */
module ArduinoHost {
  import opened Bus
  import opened Raster
  import Screen

  /** Rows the callback draws per call. */
  const SCANLINES_PER_CALLBACK := 8

  /** Byte `i` of the callback's buffer: row `i / 320`, column `i % 320` of the batch. */
  function BatchPixel(m: Mem, pal: seq<Byte>, scanLine: int, i: int): Byte
    requires |pal| == 8 && 0 <= scanLine && scanLine + SCANLINES_PER_CALLBACK <= HEIGHT
    requires 0 <= i < SCANLINES_PER_CALLBACK * WIDTH
  {
    Pixel(m, pal, scanLine + i / WIDTH, i % WIDTH)
  }

  /**
   * Row `line` of a batch that starts on a tile row boundary reads the tile
   * row `scanLine / 8` and glyph byte `line` of each tile; pixel `k` of
   * column `col` is bit `0x80 >> k` of that byte.
   */
  lemma BatchCell(m: Mem, pal: seq<Byte>, scanLine: int, line: int, col: int, k: int, tile: Byte, dat: Byte)
    requires |pal| == 8 && 0 <= scanLine && scanLine + SCANLINES_PER_CALLBACK <= HEIGHT && scanLine % 8 == 0
    requires 0 <= line < 8 && 0 <= col < 40 && 0 <= k < 8
    requires tile == m[TILE_MAP + (scanLine / 8) * 40 + col]
    requires dat == m[CHAR_TABLE + line + tile as int * 8]
    ensures BatchPixel(m, pal, scanLine, line * WIDTH + col * 8 + k)
      == Shade(dat, k, pal[Foreground(tile)], pal[BACKGROUND])
  {
    var i := line * WIDTH + col * 8 + k;
    assert i / WIDTH == line && i % WIDTH == col * 8 + k;
    assert (scanLine + line) / 8 == scanLine / 8 && (scanLine + line) % 8 == line;
    CellColumn(col, k);
  }

  /** The unrolled body of the column loop: eight pixels from `x` on, bit 0x80 first. */
  method DrawGlyphRow(dest: array<Byte>, x0: int, tileDat: Byte, fgcolor: Byte, bgcolor: Byte)
    requires 0 <= x0 && x0 + 8 <= dest.Length
    modifies dest
    ensures forall i :: 0 <= i < dest.Length && !(x0 <= i < x0 + 8) ==> dest[i] == old(dest[i])
    ensures forall i :: x0 <= i < x0 + 8 ==> dest[i] == Shade(tileDat, i - x0, fgcolor, bgcolor)
  {
    var x := x0;
    var color := Ink(tileDat, 0, fgcolor, bgcolor);
    dest[x] := color;
    x := x + 1;
    color := Ink(tileDat, 1, fgcolor, bgcolor);
    dest[x] := color;
    x := x + 1;
    color := Ink(tileDat, 2, fgcolor, bgcolor);
    dest[x] := color;
    x := x + 1;
    color := Ink(tileDat, 3, fgcolor, bgcolor);
    dest[x] := color;
    x := x + 1;
    color := Ink(tileDat, 4, fgcolor, bgcolor);
    dest[x] := color;
    x := x + 1;
    color := Ink(tileDat, 5, fgcolor, bgcolor);
    dest[x] := color;
    x := x + 1;
    color := Ink(tileDat, 6, fgcolor, bgcolor);
    dest[x] := color;
    x := x + 1;
    color := Ink(tileDat, 7, fgcolor, bgcolor);
    dest[x] := color;
    forall i | x0 <= i < x0 + 8
      ensures dest[i] == Shade(tileDat, i - x0, fgcolor, bgcolor)
    {
      var k := i - x0;
      assert k == 0 || k == 1 || k == 2 || k == 3 || k == 4 || k == 5 || k == 6 || k == 7;
    }
  }

  /**
   * The callback: eight rows of 320 pixels, row after row in `dest`, each the
   * picture row `scanLine + row`. The tile row is computed once per call
   * from `scanLine >> 3` and the glyph byte from the row within the batch,
   * so the picture comes out right only for batches that start on a tile
   * row boundary, as the 240-line mode with 8 lines per callback supplies.
   */
  method DrawScanlines(ram: array<Byte>, pal: seq<Byte>, dest: array<Byte>, scanLine: int)
    requires ram.Length == RAM_SIZE && |pal| == 8 && ram != dest
    requires dest.Length == SCANLINES_PER_CALLBACK * WIDTH
    requires 0 <= scanLine && scanLine + SCANLINES_PER_CALLBACK <= HEIGHT && scanLine % 8 == 0
    modifies dest
    ensures forall i :: 0 <= i < dest.Length ==> dest[i] == BatchPixel(ram[..], pal, scanLine, i)
  {
    ghost var m := ram[..];
    ghost var want := seq(SCANLINES_PER_CALLBACK * WIDTH,
      i requires 0 <= i < SCANLINES_PER_CALLBACK * WIDTH => BatchPixel(m, pal, scanLine, i));
    var bgcolor := pal[BACKGROUND];
    var charLine := TILE_MAP + (scanLine / 8) * 40;
    var tileLine := CHAR_TABLE;
    var base := 0;
    for line := 0 to SCANLINES_PER_CALLBACK
      invariant tileLine == CHAR_TABLE + line && base == line * WIDTH
      invariant forall i :: 0 <= i < base ==> dest[i] == want[i]
    {
      for col := 0 to 40
        invariant forall i :: 0 <= i < base + col * 8 ==> dest[i] == want[i]
      {
        var tileNum := ram[charLine + col];
        var tileDat := ram[tileLine + tileNum as int * 8];
        var fgcolor := if 8 <= tileNum < 32 then pal[(tileNum - 8) % 6] else pal[WHITE];
        assert fgcolor == pal[Foreground(tileNum)];
        var x := base + col * 8;
        DrawGlyphRow(dest, x, tileDat, fgcolor, bgcolor);
        forall i | x <= i < x + 8
          ensures dest[i] == want[i]
        {
          BatchCell(m, pal, scanLine, line, col, i - x, tileNum, tileDat);
        }
      }
      base := base + WIDTH;
      tileLine := tileLine + 1;
    }
  }

  /** A message as the C string holds it: the bytes before its terminator. */
  predicate CString(msg: seq<Byte>)
  {
    0 !in msg
  }

  /**
   * `errPrint`: the message's bytes go to consecutive addresses from the
   * first tile map cell on, through the 16-bit address; no terminator is
   * written.
   */
  method ErrPrint(ram: array<Byte>, msg: seq<Byte>)
    requires ram.Length == RAM_SIZE && CString(msg)
    modifies ram
    ensures ram[..] == PokeAll(old(ram[..]), TILE_MAP, msg)
  {
    var addr := TILE_MAP;
    var i := 0;
    while i < |msg|
      invariant 0 <= i <= |msg| && addr == (TILE_MAP + i) % 0x10000
      invariant ram[..] == PokeAll(old(ram[..]), TILE_MAP, msg[..i])
    {
      Cpoke(ram, addr, msg[i]);
      assert Addr(addr) == Addr(TILE_MAP + i);
      assert msg[..i + 1][..i] == msg[..i];
      addr := (addr + 1) % 0x10000;
      i := i + 1;
    }
    assert msg[..i] == msg;
  }

  /**
   * A message of at most one screen row shows on the top row, left to
   * right, and nothing else in memory changes: not even the cell after it.
   */
  lemma ErrPrintTopRow(m: Mem, msg: seq<Byte>)
    requires |msg| <= Screen.COLS
    ensures forall x :: 0 <= x < |msg| ==> PokeAll(m, TILE_MAP, msg)[Screen.CharAddr(x + 1, 1)] == msg[x]
    ensures forall a :: 0 <= a < RAM_SIZE && !(TILE_MAP <= a < TILE_MAP + |msg|) ==> PokeAll(m, TILE_MAP, msg)[a] == m[a]
  {
    forall x | 0 <= x < |msg|
      ensures PokeAll(m, TILE_MAP, msg)[Screen.CharAddr(x + 1, 1)] == msg[x]
    {
      PokeAllAt(m, TILE_MAP, msg, Screen.CharAddr(x + 1, 1));
    }
    forall a | 0 <= a < RAM_SIZE && !(TILE_MAP <= a < TILE_MAP + |msg|)
      ensures PokeAll(m, TILE_MAP, msg)[a] == m[a]
    {
      PokeAllAt(m, TILE_MAP, msg, a);
    }
  }
}
