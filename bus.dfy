/**
 * The Cerberus 2100 memory bus as the CAT host sees it: 64 KiB of byte-wide
 * RAM shared with the guest CPU, addressed through 16-bit addresses, with
 * little-endian word and long accessors and C-string helpers.
 *
 * `cpeek` is declared by the host but its body is not part of this model; the
 * model takes it to read the byte at the address reduced modulo 65536, which
 * is what `cpoke` does with its `uint16_t` address parameter.
 */
module Bus {

  datatype Option<T> = None | Some(value: T)

  /** One byte of RAM (`uint8_t`). */
  type Byte = b: int | 0 <= b < 256

  const RAM_SIZE: int := 0x10000

  /** The whole RAM image. */
  type Mem = m: seq<Byte> | |m| == RAM_SIZE witness seq(RAM_SIZE, _ => 0)

  // Mailbox and code layout in guest memory (main.cpp:39-43).
  const OUTBOX_FLAG: int := 0x0200
  const OUTBOX_DATA: int := 0x0201
  const INBOX_FLAG: int := 0x0202
  const INBOX_DATA: int := 0x0203
  const CODE_START: int := 0x0205

  // Video memory: the glyph table and the 40 x 30 tile map.
  const CHAR_TABLE: int := 0xF000
  const TILE_MAP: int := 0xF800

  /** A host address truncated to the 16 bits the bus decodes. */
  function Addr(a: int): (r: int)
    ensures 0 <= r < RAM_SIZE
  {
    a % RAM_SIZE
  }

  /** Truncation of an unsigned value to its low byte (`x & 0xFF`). */
  function Low(x: int): (b: Byte)
    ensures (x - b) % 256 == 0
  {
    x % 256
  }

  /** `cpeek`: the byte at a (wrapped) address. */
  function Peek(m: Mem, a: int): Byte
  {
    m[Addr(a)]
  }

  /** `cpoke`: store one byte at a (wrapped) address. */
  function Poke(m: Mem, a: int, v: Byte): (r: Mem)
    ensures r[Addr(a)] == v
    ensures forall x :: 0 <= x < RAM_SIZE && x != Addr(a) ==> r[x] == m[x]
  {
    m[Addr(a) := v]
  }

  /**
   * Bytes `s` poked one after another at `a`, `a+1`, ... in order: a later
   * poke wins where addresses meet after wrapping.
   */
  function PokeAll(m: Mem, a: int, s: seq<Byte>): Mem
    decreases |s|
  {
    if s == [] then m
    else Poke(PokeAll(m, a, s[..|s| - 1]), a + |s| - 1, s[|s| - 1])
  }

  /** How far `x` lies above `a` going up through memory with wrap-around. */
  function Offset(a: int, x: int): (d: int)
    ensures 0 <= d < RAM_SIZE
  {
    (x - a) % RAM_SIZE
  }

  /** A remainder modulo 2^16 is the one value in range that differs by a multiple. */
  lemma ModUnique(v: int, t: int, r: int)
    requires v == RAM_SIZE * t + r && 0 <= r < RAM_SIZE
    ensures v % RAM_SIZE == r
  {
  }

  /** The offset of an address above or below where a run starts. */
  lemma OffsetFromAddr(a: int, x: int)
    requires 0 <= x < RAM_SIZE
    ensures Addr(a) <= x ==> Offset(a, x) == x - Addr(a)
    ensures x < Addr(a) ==> Offset(a, x) == x - Addr(a) + RAM_SIZE
  {
    var p := a / RAM_SIZE;
    assert a == RAM_SIZE * p + Addr(a);
    if Addr(a) <= x {
      ModUnique(x - a, -p, x - Addr(a));
    } else {
      ModUnique(x - a, -p - 1, x - Addr(a) + RAM_SIZE);
    }
  }

  lemma OffsetOfNext(a: int, n: int, x: int)
    requires 0 <= n < RAM_SIZE && 0 <= x < RAM_SIZE
    ensures x == Addr(a + n) <==> Offset(a, x) == n
  {
  }

  /**
   * What every address holds after `PokeAll`: the byte poked there when the
   * run covers it, the old byte otherwise. Runs of at most 64 KiB never
   * overwrite themselves.
   */
  lemma {:induction false} PokeAllAt(m: Mem, a: int, s: seq<Byte>, x: int)
    requires |s| <= RAM_SIZE && 0 <= x < RAM_SIZE
    ensures PokeAll(m, a, s)[x] == if Offset(a, x) < |s| then s[Offset(a, x)] else m[x]
    decreases |s|
  {
    if s != [] {
      var n := |s| - 1;
      PokeAllAt(m, a, s[..n], x);
      OffsetOfNext(a, n, x);
    }
  }

  /** The bytes of `s` can be read back, in order, from `a` on. */
  lemma PokeAllReadBack(m: Mem, a: int, s: seq<Byte>, k: int)
    requires |s| <= RAM_SIZE && 0 <= k < |s|
    ensures Peek(PokeAll(m, a, s), a + k) == s[k]
  {
    OffsetOfNext(a, k, Addr(a + k));
    PokeAllAt(m, a, s, Addr(a + k));
  }

  /** `n` bytes of `x` in little-endian order. */
  function LittleEndian(x: int, n: nat): (s: seq<Byte>)
    requires x >= 0
    ensures |s| == n
  {
    if n == 0 then [] else [Low(x)] + LittleEndian(x / 256, n - 1)
  }

  /** The number the little-endian bytes `s` stand for. */
  function FromLittleEndian(s: seq<Byte>): (v: nat)
  {
    if s == [] then 0 else s[0] + 256 * FromLittleEndian(s[1..])
  }

  /** Two little-endian bytes keep a value modulo 2^16. */
  lemma {:induction false} LittleEndian2(x: int)
    requires x >= 0
    ensures FromLittleEndian(LittleEndian(x, 2)) == x % 0x10000
  {
    var s := LittleEndian(x, 2);
    var q := x / 256;
    assert s[1..] == LittleEndian(q, 1);
    assert LittleEndian(q, 1) == [Low(q)] + LittleEndian(q / 256, 0) == [q % 256];
    assert s[1..][1..] == [];
    assert FromLittleEndian(s[1..]) == q % 256 + 256 * FromLittleEndian(s[1..][1..]);
    assert FromLittleEndian(s) == x % 256 + 256 * (q % 256);
    SplitMod16(x);
  }

  /** A 32-bit address reaches the 16-bit bus through its low 16 bits. */
  lemma AddrOfWord32(x: int)
    requires x >= 0
    ensures Addr(x % 0x1_0000_0000) == Addr(x)
  {
  }

  /** Splitting a remainder modulo `256 * c` into its low byte and the rest. */
  lemma SplitMod16(x: int)
    requires x >= 0
    ensures x % 0x10000 == x % 256 + 256 * ((x / 256) % 256)
  {
    var q := x / 256;
    assert x == 0x10000 * (q / 256) + 256 * (q % 256) + x % 256;
  }

  lemma SplitMod24(x: int)
    requires x >= 0
    ensures x % 0x100_0000 == x % 256 + 256 * ((x / 256) % 0x10000)
  {
    var q := x / 256;
    assert x == 0x100_0000 * (q / 0x10000) + 256 * (q % 0x10000) + x % 256;
  }

  lemma SplitMod32(x: int)
    requires x >= 0
    ensures x % 0x1_0000_0000 == x % 256 + 256 * ((x / 256) % 0x100_0000)
  {
    var q := x / 256;
    assert x == 0x1_0000_0000 * (q / 0x100_0000) + 256 * (q % 0x100_0000) + x % 256;
  }

  /** Four little-endian bytes keep a value modulo 2^32. */
  lemma {:induction false} LittleEndian4(x: int)
    requires x >= 0
    ensures FromLittleEndian(LittleEndian(x, 4)) == x % 0x1_0000_0000
  {
    var s := LittleEndian(x, 4);
    var y := x / 256;
    LittleEndian3(y);
    assert s[1..] == LittleEndian(y, 3);
    assert FromLittleEndian(s) == x % 256 + 256 * (y % 0x100_0000);
    SplitMod32(x);
  }

  lemma {:induction false} LittleEndian3(x: int)
    requires x >= 0
    ensures FromLittleEndian(LittleEndian(x, 3)) == x % 0x100_0000
  {
    var s := LittleEndian(x, 3);
    LittleEndian2(x / 256);
    assert s[1..] == LittleEndian(x / 256, 2);
    SplitMod24(x);
  }

  /** `cpeekW`: a little-endian 16-bit word. */
  function PeekWord(m: Mem, a: int): (w: int)
    ensures 0 <= w < 0x10000
    ensures w % 256 == Peek(m, a) && w / 256 == Peek(m, a + 1)
  {
    Peek(m, a) + 256 * Peek(m, a + 1)
  }

  /** `cpokeW`: store the low 16 bits of `data`, low byte first. */
  function PokeWord(m: Mem, a: int, data: nat): Mem
  {
    PokeAll(m, a, LittleEndian(data, 2))
  }

  /** `cpokeL`: store the low 32 bits of `data`, low byte first. */
  function PokeLong(m: Mem, a: int, data: nat): Mem
  {
    PokeAll(m, a, LittleEndian(data, 4))
  }

  /** A word written with `cpokeW` reads back with `cpeekW` as its low 16 bits. */
  lemma {:induction false} WordRoundTrip(m: Mem, a: int, data: nat)
    ensures PeekWord(PokeWord(m, a, data), a) == data % 0x10000
  {
    var s := LittleEndian(data, 2);
    PokeAllReadBack(m, a, s, 0);
    PokeAllReadBack(m, a, s, 1);
    LittleEndian2(data);
    assert s[1..][1..] == [];
  }

  /** A long written with `cpokeL` reads back, byte by byte, as its low 32 bits. */
  lemma {:induction false} LongRoundTrip(m: Mem, a: int, data: nat)
    ensures var r := PokeLong(m, a, data);
      FromLittleEndian([Peek(r, a), Peek(r, a + 1), Peek(r, a + 2), Peek(r, a + 3)]) == data % 0x1_0000_0000
  {
    var s := LittleEndian(data, 4);
    PokeAllReadBack(m, a, s, 0);
    PokeAllReadBack(m, a, s, 1);
    PokeAllReadBack(m, a, s, 2);
    PokeAllReadBack(m, a, s, 3);
    LittleEndian4(data);
    assert s == [s[0], s[1], s[2], s[3]];
  }

  /** Word and long stores touch only their own two or four bytes. */
  lemma StoreFrame(m: Mem, a: int, data: nat, x: int)
    requires 0 <= x < RAM_SIZE
    ensures Offset(a, x) >= 2 ==> PokeWord(m, a, data)[x] == m[x]
    ensures Offset(a, x) >= 4 ==> PokeLong(m, a, data)[x] == m[x]
  {
    PokeAllAt(m, a, LittleEndian(data, 2), x);
    PokeAllAt(m, a, LittleEndian(data, 4), x);
  }

  /** `cpokeStr`: the text followed by a 0 terminator. */
  function PokeString(m: Mem, a: int, text: seq<Byte>): Mem
  {
    PokeAll(m, a, text + [0 as Byte])
  }

  /** The byte `k` places above `a`. */
  function ByteAt(m: Mem, a: int, k: int): Byte
  {
    Peek(m, a + k)
  }

  /**
   * Index of the first 0 among the bytes `i` .. `max - 1` places above `a`,
   * or `max` when there is none: where `cpeekStr` stops.
   */
  function FirstZeroFrom(m: Mem, a: int, i: nat, max: nat): (r: nat)
    requires i <= max
    ensures i <= r <= max
    ensures forall k :: i <= k < r ==> ByteAt(m, a, k) != 0
    ensures r < max ==> ByteAt(m, a, r) == 0
    decreases max - i
  {
    if i == max then max
    else if ByteAt(m, a, i) == 0 then i
    else FirstZeroFrom(m, a, i + 1, max)
  }

  function FirstZero(m: Mem, a: int, max: nat): (r: nat)
    ensures r <= max
    ensures forall k :: 0 <= k < r ==> ByteAt(m, a, k) != 0
    ensures r < max ==> ByteAt(m, a, r) == 0
  {
    FirstZeroFrom(m, a, 0, max)
  }

  /** The first terminator is unique: any 0 with no 0 before it is the one found. */
  lemma FirstZeroIs(m: Mem, a: int, max: nat, n: nat)
    requires n < max && ByteAt(m, a, n) == 0
    requires forall k :: 0 <= k < n ==> ByteAt(m, a, k) != 0
    ensures FirstZero(m, a, max) == n
  {
  }

  /** The bytes `cpeekStr` copies: up to and including the terminator. */
  function CopiedBytes(m: Mem, a: int, max: nat): (s: seq<Byte>)
  {
    var n := FirstZero(m, a, max);
    seq(if n < max then n + 1 else max, k => ByteAt(m, a, k))
  }

  /** A string stored with `cpokeStr` is read back by `cpeekStr` unchanged. */
  lemma StringRoundTrip(m: Mem, a: int, text: seq<Byte>, max: nat)
    requires |text| < max && |text| < RAM_SIZE
    requires forall k :: 0 <= k < |text| ==> text[k] != 0
    ensures var r := PokeString(m, a, text);
      FirstZero(r, a, max) == |text| && CopiedBytes(r, a, max) == text + [0]
  {
    var r := PokeString(m, a, text);
    var s := text + [0 as Byte];
    forall k | 0 <= k < |s|
      ensures ByteAt(r, a, k) == s[k]
    {
      PokeAllReadBack(m, a, s, k);
    }
    FirstZeroIs(r, a, max, |text|);
  }

  /** `cpeekW` on the RAM array: low byte at `address`, high byte above it. */
  method CpeekW(ram: array<Byte>, address: int) returns (w: int)
    requires ram.Length == RAM_SIZE
    ensures w == PeekWord(ram[..], address)
  {
    w := ram[Addr(address)] as int + 256 * ram[Addr(address + 1)] as int;
  }

  /** `cpoke` on the RAM array. */
  method Cpoke(ram: array<Byte>, address: int, value: Byte)
    requires ram.Length == RAM_SIZE
    modifies ram
    ensures ram[..] == Poke(old(ram[..]), address, value)
  {
    ram[Addr(address)] := value;
  }

  /** `cpokeW`: low byte at `address`, high byte at `address + 1`. */
  method CpokeW(ram: array<Byte>, address: int, data: nat)
    requires ram.Length == RAM_SIZE
    modifies ram
    ensures ram[..] == PokeWord(old(ram[..]), address, data)
  {
    ghost var m := ram[..];
    var s := LittleEndian(data, 2);
    assert s[..1][..0] == [] && s[..2][..1] == s[..1] && s == s[..2];
    assert s[1..] == LittleEndian(data / 256, 1);
    assert s[0] == Low(data) && s[1] == Low(data / 256);
    assert PokeAll(m, address, s[..1]) == Poke(m, address, s[0]);
    Cpoke(ram, address, Low(data));
    Cpoke(ram, address + 1, Low(data / 256));
  }

  /** `cpokeL`: four bytes, least significant first. */
  method CpokeL(ram: array<Byte>, address: int, data: nat)
    requires ram.Length == RAM_SIZE
    modifies ram
    ensures ram[..] == PokeLong(old(ram[..]), address, data)
  {
    ghost var m := ram[..];
    var s := LittleEndian(data, 4);
    assert s == s[..4];
    var i := 0;
    while i < 4
      invariant 0 <= i <= 4
      invariant ram[..] == PokeAll(m, address, s[..i])
    {
      assert s[..i + 1][..i] == s[..i];
      Cpoke(ram, address + i, s[i]);
      i := i + 1;
    }
  }

  /**
   * `cpokeStr`: every byte of `text` then a 0 terminator; always reports
   * success.
   */
  method CpokeStr(ram: array<Byte>, address: int, text: seq<Byte>) returns (ok: bool)
    requires ram.Length == RAM_SIZE
    modifies ram
    ensures ok
    ensures ram[..] == PokeString(old(ram[..]), address, text)
  {
    ghost var m := ram[..];
    var i := 0;
    while i < |text|
      invariant 0 <= i <= |text|
      invariant ram[..] == PokeAll(m, address, text[..i])
    {
      assert text[..i + 1][..i] == text[..i];
      Cpoke(ram, address + i, text[i]);
      i := i + 1;
    }
    assert text == text[..i];
    assert (text + [0 as Byte])[..|text|] == text;
    Cpoke(ram, address + |text|, 0);
    ok := true;
  }

  /**
   * `cpeekStr`: copy bytes from RAM into `dest` until a 0 has been copied or
   * `max` bytes have been copied; `found` tells which.
   */
  method CpeekStr(ram: array<Byte>, address: int, dest: array<Byte>, max: nat) returns (found: bool)
    requires ram.Length == RAM_SIZE && max <= dest.Length && ram != dest
    modifies dest
    ensures found == (FirstZero(old(ram[..]), address, max) < max)
    ensures var c := CopiedBytes(old(ram[..]), address, max);
      dest[..] == c + old(dest[..])[|c|..]
  {
    ghost var m := ram[..];
    ghost var n := FirstZero(m, address, max);
    var i := 0;
    while i < max
      invariant 0 <= i <= max && i <= n
      invariant ram[..] == m
      invariant forall k :: 0 <= k < i ==> dest[k] == ByteAt(m, address, k)
      invariant forall k :: i <= k < dest.Length ==> dest[k] == old(dest[k])
    {
      var c := ram[Addr(address + i)];
      dest[i] := c;
      if c == 0 {
        found := true;
        assert ByteAt(m, address, i) == 0;
        ghost var cb := CopiedBytes(m, address, max);
        assert |cb| == i + 1;
        assert dest[..] == cb + old(dest[..])[i + 1..];
        return;
      }
      i := i + 1;
    }
    found := false;
    assert dest[..] == CopiedBytes(m, address, max) + old(dest[..])[max..];
  }
}
