/**
 * The CAT's text screen: a 40 x 30 map of tile codes at 0xF800, addressed by
 * 1-based column and row. Column 1, column 40 and the rows outside the
 * working area hold the frame; the edit line is row 29.
 */
module Screen {
  import opened Bus

  const COLS: int := 40
  const ROWS: int := 30
  const CELLS: int := 1200
  const SPACE: Byte := 32

  /** `cprintChar`'s target: column `x`, row `y`, wrapped to the 16-bit bus. */
  function CharAddr(x: int, y: int): (a: int)
    ensures 0 <= a < RAM_SIZE
  {
    Addr(TILE_MAP + (y - 1) * COLS + (x - 1))
  }

  predicate InMap(a: int)
  {
    TILE_MAP <= a < TILE_MAP + CELLS
  }

  /** Column of a tile-map address (1-based). */
  function Col(a: int): int
  {
    (a - TILE_MAP) % COLS + 1
  }

  /** Row of a tile-map address (1-based). */
  function Row(a: int): int
  {
    (a - TILE_MAP) / COLS + 1
  }

  /** Every on-screen cell has its own address inside the tile map. */
  lemma CellRoundTrip(x: int, y: int)
    requires 1 <= x <= COLS && 1 <= y <= ROWS
    ensures InMap(CharAddr(x, y))
    ensures Col(CharAddr(x, y)) == x && Row(CharAddr(x, y)) == y
  {
  }

  /** ... and every tile-map address is the cell at its column and row. */
  lemma AddrRoundTrip(a: int)
    requires InMap(a)
    ensures 1 <= Col(a) <= COLS && 1 <= Row(a) <= ROWS
    ensures CharAddr(Col(a), Row(a)) == a
  {
  }

  /** The cells of columns x0..x1 in rows y0..y1. */
  predicate InBox(a: int, x0: int, x1: int, y0: int, y1: int)
  {
    InMap(a) && x0 <= Col(a) <= x1 && y0 <= Row(a) <= y1
  }

  /** Memory with every cell of a box set to `v`. */
  function Fill(m: Mem, x0: int, x1: int, y0: int, y1: int, v: Byte): Mem
  {
    seq(RAM_SIZE, a requires 0 <= a < RAM_SIZE => if InBox(a, x0, x1, y0, y1) then v else m[a])
  }

  /** Memory with the addresses lo..hi-1 set to `v`. */
  function FillRange(m: Mem, lo: int, hi: int, v: Byte): Mem
  {
    seq(RAM_SIZE, a requires 0 <= a < RAM_SIZE => if lo <= a < hi then v else m[a])
  }

  /** Filling the whole 1200-byte map is filling every cell of the 40 x 30 screen. */
  lemma WholeMapIsWholeScreen(m: Mem, v: Byte)
    ensures FillRange(m, TILE_MAP, TILE_MAP + CELLS, v) == Fill(m, 1, COLS, 1, ROWS, v)
  {
    forall a | 0 <= a < RAM_SIZE
      ensures FillRange(m, TILE_MAP, TILE_MAP + CELLS, v)[a] == Fill(m, 1, COLS, 1, ROWS, v)[a]
    {
      if InMap(a) { AddrRoundTrip(a); }
    }
  }

  /** Extending a box by one cell of its next column. */
  lemma FillNextCell(m: Mem, x0: int, x: int, y: int, v: Byte)
    requires 1 <= x <= COLS && 1 <= y <= ROWS && x0 <= x
    ensures Fill(m, x0, x, y, y, v) == Poke(Fill(m, x0, x - 1, y, y, v), CharAddr(x, y), v)
  {
    CellRoundTrip(x, y);
    var l := Fill(m, x0, x, y, y, v);
    var r := Poke(Fill(m, x0, x - 1, y, y, v), CharAddr(x, y), v);
    forall a | 0 <= a < RAM_SIZE
      ensures l[a] == r[a]
    {
      if InMap(a) { AddrRoundTrip(a); }
    }
  }

  /** Extending a box of full-width rows by its next row. */
  lemma FillNextRow(m: Mem, x0: int, x1: int, y0: int, y: int, v: Byte)
    requires y0 <= y
    ensures Fill(m, x0, x1, y0, y, v) == Fill(Fill(m, x0, x1, y0, y - 1, v), x0, x1, y, y, v)
  {
    var l := Fill(m, x0, x1, y0, y, v);
    var r := Fill(Fill(m, x0, x1, y0, y - 1, v), x0, x1, y, y, v);
    forall a | 0 <= a < RAM_SIZE
      ensures l[a] == r[a]
    {
    }
  }

  /** `cprintChar`: one tile code at column `x`, row `y`. */
  method CprintChar(ram: array<Byte>, x: Byte, y: Byte, token: Byte)
    requires ram.Length == RAM_SIZE
    modifies ram
    ensures ram[..] == Poke(old(ram[..]), CharAddr(x, y), token)
  {
    Cpoke(ram, TILE_MAP + (y - 1) * COLS + (x - 1), token);
  }

  /** `clearLine`: blank the working columns 2..39 of row `y`. */
  method ClearLine(ram: array<Byte>, y: Byte)
    requires ram.Length == RAM_SIZE && 1 <= y <= ROWS
    modifies ram
    ensures ram[..] == Fill(old(ram[..]), 2, 39, y, y, SPACE)
  {
    ghost var m := ram[..];
    assert m == Fill(m, 2, 1, y, y, SPACE);
    var x := 2;
    while x < 40
      invariant 2 <= x <= 40
      invariant ram[..] == Fill(m, 2, x - 1, y, y, SPACE)
    {
      FillNextCell(m, 2, x, y, SPACE);
      CprintChar(ram, x, y, SPACE);
      x := x + 1;
    }
  }

  /** `cls`: blank the working area, columns 2..39 of rows 2..25. */
  method Cls(ram: array<Byte>)
    requires ram.Length == RAM_SIZE
    modifies ram
    ensures ram[..] == Fill(old(ram[..]), 2, 39, 2, 25, SPACE)
  {
    ghost var m := ram[..];
    assert m == Fill(m, 2, 39, 2, 1, SPACE);
    var y := 2;
    while y < 26
      invariant 2 <= y <= 26
      invariant ram[..] == Fill(m, 2, 39, 2, y - 1, SPACE)
    {
      FillNextRow(m, 2, 39, 2, y, SPACE);
      ClearLine(ram, y);
      y := y + 1;
    }
  }

  /** `ccls`: blank all 1200 cells of the tile map, frame included. */
  method Ccls(ram: array<Byte>)
    requires ram.Length == RAM_SIZE
    modifies ram
    ensures ram[..] == Fill(old(ram[..]), 1, COLS, 1, ROWS, SPACE)
  {
    ghost var m := ram[..];
    var x := 0;
    while x < CELLS
      invariant 0 <= x <= CELLS
      invariant ram[..] == FillRange(m, TILE_MAP, TILE_MAP + x, SPACE)
    {
      Cpoke(ram, TILE_MAP + x, SPACE);
      x := x + 1;
    }
    WholeMapIsWholeScreen(m, SPACE);
  }

  /**
   * What `cprintString` leaves: the byte `text[i]` in column `x + i` of row
   * `y` wherever that column lies strictly inside the frame (2..39).
   */
  function PrintedText(m: Mem, x: int, y: int, text: seq<Byte>): Mem
  {
    seq(RAM_SIZE, a requires 0 <= a < RAM_SIZE =>
      if InBox(a, 2, 39, y, y) && 0 <= Col(a) - x < |text| then text[Col(a) - x] else m[a])
  }

  /** `cprintString` clips at the frame: nothing outside columns 2..39 of its row changes. */
  lemma PrintedTextStaysInRow(m: Mem, x: int, y: int, text: seq<Byte>, a: int)
    requires 0 <= a < RAM_SIZE && !InBox(a, 2, 39, y, y)
    ensures PrintedText(m, x, y, text)[a] == m[a]
  {
  }

  /** `cprintString`: print `text` from column `x` of row `y`, clipped to columns 2..39. */
  method CprintString(ram: array<Byte>, x: Byte, y: Byte, text: seq<Byte>)
    requires ram.Length == RAM_SIZE && 1 <= y <= ROWS
    modifies ram
    ensures ram[..] == PrintedText(old(ram[..]), x, y, text)
  {
    ghost var m := ram[..];
    assert m == PrintedText(m, x, y, []);
    var i := 0;
    while i < |text|
      invariant 0 <= i <= |text|
      invariant ram[..] == PrintedText(m, x, y, text[..i])
    {
      if x + i > 1 && x + i < 40 {
        CprintChar(ram, x + i, y, text[i]);
        CellRoundTrip(x + i, y);
      }
      forall a | 0 <= a < RAM_SIZE
        ensures ram[a] == PrintedText(m, x, y, text[..i + 1])[a]
      {
        if InMap(a) { AddrRoundTrip(a); }
      }
      i := i + 1;
    }
    assert text[..i] == text;
  }

  /**
   * `addressTranslate`, with its unsigned arithmetic written out: the
   * number of 38-cell rows is truncated to a byte and the sum wraps at 2^32.
   */
  function AddressTranslate(virtualAddress: int): (r: int)
    requires 0 <= virtualAddress < 0x1_0000_0000
    ensures 0 <= r < 0x1_0000_0000
  {
    var numberVirtualRows := ((virtualAddress - TILE_MAP) % 0x1_0000_0000 / 38) % 256;
    (virtualAddress + 43 + 2 * (numberVirtualRows - 1)) % 0x1_0000_0000
  }

  /**
   * `addressTranslate` maps the i-th cell of a 38-column window onto the
   * tile map: it is the address `cprintChar` uses for column i mod 38 + 2,
   * row i / 38 + 2, for every cell of the 23 rows the memory test walks.
   */
  lemma AddressTranslateIsWindowCell(i: int)
    requires 0 <= i < 38 * 23
    ensures AddressTranslate(TILE_MAP + i) == CharAddr(i % 38 + 2, i / 38 + 2)
    ensures InBox(AddressTranslate(TILE_MAP + i), 2, 39, 2, 24)
  {
    var q, r := i / 38, i % 38;
    TranslateRows(i);
    assert AddressTranslate(TILE_MAP + i) == TILE_MAP + 41 + 38 * q + r + 2 * q;
    assert TILE_MAP + (q + 1) * COLS + (r + 1) == TILE_MAP + 41 + 38 * q + r + 2 * q;
    CellRoundTrip(r + 2, q + 2);
  }

  /** The row count `addressTranslate` computes for the i-th window cell. */
  lemma TranslateRows(i: int)
    requires 0 <= i < 38 * 23
    ensures i == 38 * (i / 38) + i % 38 && 0 <= i / 38 < 23
    ensures AddressTranslate(TILE_MAP + i) == TILE_MAP + 41 + i + 2 * (i / 38)
  {
    var q := i / 38;
    assert ((TILE_MAP + i - TILE_MAP) % 0x1_0000_0000 / 38) % 256 == q;
  }
}
