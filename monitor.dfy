/**
 * The CAT monitor's memory and file primitives: status codes, `save`,
 * `load`'s placement rule, `delFile`, `binMove`, the start-up vectors that
 * `runCode` plants, and hexadecimal entry with its running checksum.
 */
module Monitor {
  import opened Bus
  import opened Storage
  import Screen

  /** The status codes of main.cpp:48-59. */
  datatype Status =
    | Default | Boot | Ready | UnknownCommand | NoFile | CannotOpen
    | MissingOperand | ScrollPrompt | FileExists | AddressError | Power | Eof

  function Code(s: Status): (c: Byte)
    ensures c < 12
  {
    match s
    case Default => 0
    case Boot => 1
    case Ready => 2
    case UnknownCommand => 3
    case NoFile => 4
    case CannotOpen => 5
    case MissingOperand => 6
    case ScrollPrompt => 7
    case FileExists => 8
    case AddressError => 9
    case Power => 10
    case Eof => 11
  }

  /** Distinct statuses have distinct codes. */
  lemma CodeInjective(s: Status, t: Status)
    ensures Code(s) == Code(t) ==> s == t
  {
  }

  // ---------------------------------------------------------------- save

  /** The bytes `save` writes: `cpeek(i)` for i = start .. end. */
  function SavedBytes(m: Mem, startAddress: int, endAddress: int): (s: seq<Byte>)
    requires startAddress <= endAddress + 1
    ensures |s| == endAddress - startAddress + 1
  {
    seq(endAddress - startAddress + 1, k => ByteAt(m, startAddress, k))
  }

  /**
   * `save`: refuse an empty range, a missing name, an existing file and a
   * card that cannot create it, in that order; otherwise create the file.
   */
  function Save(c: Card, m: Mem, filename: Name, startAddress: int, endAddress: int): (r: (Status, Card))
    requires Valid(c)
    ensures Valid(r.1)
  {
    if endAddress < startAddress then (AddressError, c)
    else if filename == [] then (MissingOperand, c)
    else if Exists(c, filename) then (FileExists, c)
    else if !c.writable then (CannotOpen, c)
    else (Ready, Create(c, filename, SavedBytes(m, startAddress, endAddress)))
  }

  /** `save` never replaces or changes an existing file, and changes nothing when it fails. */
  lemma SaveNeverOverwrites(c: Card, m: Mem, filename: Name, startAddress: int, endAddress: int)
    requires Valid(c)
    ensures var (status, c') := Save(c, m, filename, startAddress, endAddress);
      (status != Ready ==> c' == c)
      && (forall n :: Exists(c, n) ==> Exists(c', n) && c'.files[n] == c.files[n])
      && (status == Ready <==> startAddress <= endAddress && filename != [] && !Exists(c, filename) && c.writable)
  {
  }

  /**
   * `save` as the source runs it: one `cpeek` and one single-byte write per
   * address from `startAddress` to `endAddress`. The loop counter is 32 bits
   * wide, so an `endAddress` of 2^32 - 1 would never end the loop.
   */
  method SaveFile(ram: array<Byte>, c: Card, filename: Name, startAddress: int, endAddress: int)
    returns (status: Status, c': Card)
    requires ram.Length == RAM_SIZE && Valid(c)
    requires 0 <= startAddress < 0x1_0000_0000 && -1 <= endAddress < 0xFFFF_FFFF
    ensures (status, c') == Save(c, ram[..], filename, startAddress, endAddress)
  {
    if endAddress < startAddress {
      return AddressError, c;
    }
    if filename == [] {
      return MissingOperand, c;
    }
    if Exists(c, filename) {
      return FileExists, c;
    }
    if !c.writable {
      return CannotOpen, c;
    }
    var written: seq<Byte> := [];
    var i := startAddress;
    while i <= endAddress
      invariant startAddress <= i <= endAddress + 1
      invariant written == SavedBytes(ram[..], startAddress, i - 1)
    {
      var data := ram[Addr(i)];
      assert SavedBytes(ram[..], startAddress, i) == SavedBytes(ram[..], startAddress, i - 1) + [data];
      written := written + [data];
      i := i + 1;
    }
    return Ready, Create(c, filename, written);
  }

  // ---------------------------------------------------------------- load

  /**
   * How many bytes `load` stores from `startAddr` for a file of `size`
   * bytes: all of them, or as many as fit below the top of memory.
   */
  function LoadCount(startAddr: int, size: nat): (n: nat)
    ensures n <= size && Addr(startAddr) + n <= RAM_SIZE
    ensures n < size ==> Addr(startAddr) + n == RAM_SIZE
  {
    if size <= RAM_SIZE - Addr(startAddr) then size else RAM_SIZE - Addr(startAddr)
  }

  /**
   * The outcome of `load`: its status, the memory, and the new value of the
   * 16-bit `bytesRead` counter when the file was opened.
   */
  datatype Loaded = Loaded(status: Status, mem: Mem, bytesRead: Option<int>)

  function Load(c: Card, m: Mem, filename: Name, startAddr: int): (r: Loaded)
  {
    if filename == [] then Loaded(MissingOperand, m, None)
    else if !Exists(c, filename) then Loaded(CannotOpen, m, None)
    else
      var data := c.files[filename];
      var n := LoadCount(startAddr, |data|);
      Loaded(Ready, PokeAll(m, startAddr, data[..n]), Some(n % 0x10000))
  }

  /**
   * A load stores the file's bytes at consecutive addresses from
   * `startAddr` up, stops at 0xFFFF instead of wrapping to 0, and leaves
   * every other byte alone; a missing name or file changes nothing.
   */
  lemma {:induction false} LoadPlacesBytes(c: Card, m: Mem, filename: Name, startAddr: int, x: int)
    requires 0 <= x < RAM_SIZE
    ensures var r := Load(c, m, filename, startAddr);
      (r.status == Ready <==> filename != [] && Exists(c, filename))
      && (r.status != Ready ==> r.mem == m && r.bytesRead == None)
      && (r.status == Ready ==>
            var data := c.files[filename];
            var n := LoadCount(startAddr, |data|);
            r.mem[x] == (if Addr(startAddr) <= x < Addr(startAddr) + n then data[x - Addr(startAddr)] else m[x]))
  {
    var r := Load(c, m, filename, startAddr);
    if r.status == Ready {
      var data := c.files[filename];
      var n := LoadCount(startAddr, |data|);
      PokeAllAt(m, startAddr, data[..n], x);
      OffsetFromAddr(startAddr, x);
    }
  }

  /**
   * What `save` writes, `load` puts back: loading a file saved from the
   * range start..end at `start` restores exactly that range.
   */
  lemma {:induction false} SaveThenLoad(c: Card, m: Mem, m2: Mem, filename: Name, s: int, e: int, x: int)
    requires Valid(c) && 0 <= s <= e < RAM_SIZE && 0 <= x < RAM_SIZE
    requires Save(c, m, filename, s, e).0 == Ready
    ensures var c' := Save(c, m, filename, s, e).1;
      var r := Load(c', m2, filename, s);
      r.status == Ready && r.bytesRead == Some((e - s + 1) % 0x10000)
      && r.mem[x] == (if s <= x <= e then m[x] else m2[x])
  {
    var c' := Save(c, m, filename, s, e).1;
    var data := SavedBytes(m, s, e);
    assert c'.files[filename] == data;
    assert LoadCount(s, |data|) == |data|;
    LoadPlacesBytes(c', m2, filename, s, x);
    if s <= x <= e {
      assert data[x - s] == ByteAt(m, s, x - s) == m[x];
    }
  }

  // ---------------------------------------------------------------- delFile

  /** `delFile`: `NoFile` when absent; otherwise remove it and report `Ready`. */
  function DelFile(c: Card, filename: Name): (r: (Status, Card))
    requires Valid(c)
    ensures Valid(r.1)
  {
    if !Exists(c, filename) then (NoFile, c) else (Ready, Remove(c, filename))
  }

  /**
   * Deleting reports `Ready` exactly when the file existed; the file is then
   * gone unless the card refused the removal, and every other file stays.
   */
  lemma DelFileOutcome(c: Card, filename: Name)
    requires Valid(c)
    ensures var (status, c') := DelFile(c, filename);
      (status == Ready <==> Exists(c, filename))
      && (status == Ready && c.writable ==> !Exists(c', filename))
      && (forall n :: n != filename && Exists(c, n) ==> Exists(c', n) && c'.files[n] == c.files[n])
  {
  }

  // ---------------------------------------------------------------- binMove

  /**
   * `n` steps of `binMove`'s loop: step k copies the byte now at
   * `start + k` to `destination + k`.
   */
  function MoveSteps(m: Mem, start: int, destination: int, n: nat): Mem
  {
    if n == 0 then m
    else
      var p := MoveSteps(m, start, destination, n - 1);
      Poke(p, destination + n - 1, Peek(p, start + n - 1))
  }

  /**
   * `binMove` on already converted operands (`None` for an empty word):
   * a missing operand, an empty range, or a destination inside the source
   * range are refused; otherwise the bytes start..finish are copied in
   * ascending order.
   */
  function Move(m: Mem, start: Option<int>, finish: Option<int>, destination: Option<int>): (r: (Status, Mem))
  {
    if start.None? || finish.None? || destination.None? then (MissingOperand, m)
    else if finish.value < start.value then (AddressError, m)
    else if start.value <= destination.value <= finish.value then (AddressError, m)
    else (Ready, MoveSteps(m, start.value, destination.value, finish.value - start.value + 1))
  }

  /**
   * When source and destination lie below 0x10000 and the destination is
   * not inside the source range, the ascending copy reproduces the source
   * bytes at the destination and changes nothing else.
   */
  lemma MoveCopies(m: Mem, s: int, d: int, n: nat, x: int)
    requires 0 <= s && s + n <= RAM_SIZE && 0 <= d && d + n <= RAM_SIZE
    requires d < s || s + n <= d
    requires 0 <= x < RAM_SIZE
    ensures MoveSteps(m, s, d, n)[x] == if d <= x < d + n then m[s + x - d] else m[x]
  {
    if d <= x < d + n {
      MoveFillsDestination(m, s, d, n, x);
    } else {
      MoveKeepsOutside(m, s, d, n, x);
    }
  }

  /** A byte outside the destination range is never written. */
  lemma {:induction false} MoveKeepsOutside(m: Mem, s: int, d: int, n: nat, x: int)
    requires 0 <= s && s + n <= RAM_SIZE && 0 <= d && d + n <= RAM_SIZE
    requires 0 <= x < RAM_SIZE && !(d <= x < d + n)
    ensures MoveSteps(m, s, d, n)[x] == m[x]
  {
    if n > 0 {
      MoveStepAt(m, s, d, n, x);
      MoveKeepsOutside(m, s, d, n - 1, x);
    }
  }

  /** A byte of the destination range ends up holding its source byte. */
  lemma {:induction false} MoveFillsDestination(m: Mem, s: int, d: int, n: nat, x: int)
    requires 0 <= s && s + n <= RAM_SIZE && 0 <= d && d + n <= RAM_SIZE
    requires d < s || s + n <= d
    requires d <= x < d + n
    ensures MoveSteps(m, s, d, n)[x] == m[s + x - d]
  {
    MoveStepAt(m, s, d, n, x);
    if x == d + n - 1 {
      MoveKeepsOutside(m, s, d, n - 1, s + n - 1);
    } else {
      MoveFillsDestination(m, s, d, n - 1, x);
    }
  }

  /** The last of `n` steps writes the byte the first `n - 1` steps left at its source. */
  lemma MoveStepAt(m: Mem, s: int, d: int, n: nat, x: int)
    requires n > 0 && 0 <= s + n - 1 < RAM_SIZE && 0 <= d + n - 1 < RAM_SIZE && 0 <= x < RAM_SIZE
    ensures MoveSteps(m, s, d, n)[x]
      == if x == d + n - 1 then MoveSteps(m, s, d, n - 1)[s + n - 1] else MoveSteps(m, s, d, n - 1)[x]
  {
    var p := MoveSteps(m, s, d, n - 1);
    assert Addr(s + n - 1) == s + n - 1 && Addr(d + n - 1) == d + n - 1;
    assert MoveSteps(m, s, d, n) == Poke(p, d + n - 1, Peek(p, s + n - 1));
  }

  /**
   * Why `binMove` refuses a destination inside the source range: copying
   * two bytes one place up repeats the first byte instead of moving both.
   */
  lemma OverlapSmears(m: Mem, s: int)
    requires 0 <= s && s + 3 <= RAM_SIZE && m[s] != m[s + 1]
    ensures MoveSteps(m, s, s + 1, 2)[s + 2] != m[s + 1]
  {
    var p1 := MoveSteps(m, s, s + 1, 1);
    assert MoveSteps(m, s, s + 1, 0) == m;
    assert p1 == Poke(m, s + 1, m[s]);
    assert MoveSteps(m, s, s + 1, 2) == Poke(p1, s + 2, p1[s + 1]);
  }

  method BinMove(ram: array<Byte>, start: Option<int>, finish: Option<int>, destination: Option<int>)
    returns (status: Status)
    requires ram.Length == RAM_SIZE
    requires start.Some? ==> 0 <= start.value < 0x1_0000_0000
    requires finish.Some? ==> 0 <= finish.value < 0xFFFF_FFFF
    requires destination.Some? ==> 0 <= destination.value < 0x1_0000_0000
    modifies ram
    ensures (status, ram[..]) == Move(old(ram[..]), start, finish, destination)
  {
    if start.None? || finish.None? || destination.None? {
      return MissingOperand;
    }
    var s, f, dest := start.value, finish.value, destination.value;
    if f < s || (s <= dest && dest <= f) {
      return AddressError;
    }
    ghost var m := ram[..];
    var i := s;
    while i <= f
      invariant s <= i <= f + 1
      invariant dest == destination.value + (i - s)
      invariant ram[..] == MoveSteps(m, s, destination.value, i - s)
    {
      Cpoke(ram, dest, ram[Addr(i)]);
      dest := dest + 1;
      i := i + 1;
    }
    return Ready;
  }

  // ---------------------------------------------------------------- runCode

  const RTI: Byte := 0x40
  const JP: Byte := 0xC3
  const NMI_STUB: int := 0xFCB0

  /**
   * Memory as `runCode` leaves it: screen blanked, mailbox flags and outbox
   * data cleared, then the start-up code for the selected processor.
   */
  function RunCodeMem(m: Mem, z80: bool): Mem
  {
    var blank := Screen.Fill(m, 1, Screen.COLS, 1, Screen.ROWS, Screen.SPACE);
    var mail := Poke(Poke(Poke(blank, OUTBOX_FLAG, 0), OUTBOX_DATA, 0), INBOX_FLAG, 0);
    if !z80 then
      Poke(Poke(Poke(Poke(Poke(mail, 0xFFFA, 0xB0), 0xFFFB, 0xFC), NMI_STUB, RTI), 0xFFFC, CODE_START % 256), 0xFFFD, CODE_START / 256)
    else
      Poke(Poke(Poke(Poke(Poke(mail, 0x0066, 0xED), 0x0067, 0x45), 0x0000, JP), 0x0001, CODE_START % 256), 0x0002, CODE_START / 256)
  }

  /**
   * In 6502 mode the reset vector points at the code area and the NMI
   * vector at an RTI placed just past the tile map; in Z80 mode address 0
   * jumps to the code area and the NMI entry 0x0066 returns at once (RETN).
   * Both leave the mailbox flags clear.
   */
  lemma RunCodeVectors(m: Mem, z80: bool)
    ensures var r := RunCodeMem(m, z80);
      r[OUTBOX_FLAG] == 0 && r[OUTBOX_DATA] == 0 && r[INBOX_FLAG] == 0
      && (!z80 ==> PeekWord(r, 0xFFFC) == CODE_START && PeekWord(r, 0xFFFA) == NMI_STUB
                   && r[NMI_STUB] == RTI && NMI_STUB == TILE_MAP + Screen.CELLS)
      && (z80 ==> r[0] == JP && PeekWord(r, 1) == CODE_START && r[0x66] == 0xED && r[0x67] == 0x45)
  {
  }

  /** `runCode` leaves a loaded program in the code area untouched. */
  lemma RunCodeKeepsProgram(m: Mem, z80: bool, a: int)
    requires CODE_START <= a < CHAR_TABLE
    ensures RunCodeMem(m, z80)[a] == m[a]
  {
  }

  // ---------------------------------------------------------------- hex entry

  /**
   * A word typed after `0xADDR`, already converted by `strtol`: a data byte
   * or a `#` checksum word.
   */
  datatype HexWord = DataWord(value: int) | CheckWord(value: int)

  /** Hex entry's running state; `chkA`/`chkB` are the byte-wide sums. */
  datatype Entry = Entry(mem: Mem, addr: int, chkA: Byte, chkB: Byte)

  /**
   * One word of hex entry. A data word is truncated to a byte and stored,
   * and the sums advance; a checksum word replaces the address counter and
   * prints `addrWord` at column 28 of row 26 when it differs from
   * `(chkA << 8) | chkB`.
   */
  function EnterStep(s: Entry, w: HexWord, addrWord: seq<Byte>): Entry
  {
    match w
    case DataWord(v) =>
      var data := Low(v);
      var a := (s.chkA + data) % 256;
      Entry(Poke(s.mem, s.addr, data), (s.addr + 1) % 0x1_0000_0000, a, (s.chkB + a) % 256)
    case CheckWord(v) =>
      var addr := v % 0x1_0000_0000;
      var mem := if addr != s.chkA * 256 + s.chkB then Screen.PrintedText(s.mem, 28, 26, addrWord) else s.mem;
      Entry(mem, addr, s.chkA, s.chkB)
  }

  function EnterWords(m: Mem, addr: int, words: seq<HexWord>, addrWord: seq<Byte>): Entry
    decreases |words|
  {
    if words == [] then Entry(m, addr, 1, 0)
    else EnterStep(EnterWords(m, addr, words[..|words| - 1], addrWord), words[|words| - 1], addrWord)
  }

  /** The checksum pair after `data`, as hex entry computes it byte by byte. */
  function Checksum(data: seq<Byte>): (Byte, Byte)
    decreases |data|
  {
    if data == [] then (1, 0)
    else
      var (a, b) := Checksum(data[..|data| - 1]);
      var a' := (a + data[|data| - 1]) % 256;
      (a', (b + a') % 256)
  }

  function Sum(data: seq<Byte>): int
  {
    if data == [] then 0 else data[0] + Sum(data[1..])
  }

  /** Each byte weighted by how many sums it enters: the first by |data|, the last by 1. */
  function Weighted(data: seq<Byte>): int
  {
    if data == [] then 0 else |data| * data[0] + Weighted(data[1..])
  }

  lemma {:induction false} SumSnoc(data: seq<Byte>, x: Byte)
    ensures Sum(data + [x]) == Sum(data) + x
    ensures Weighted(data + [x]) == Weighted(data) + Sum(data) + x
  {
    if data != [] {
      assert (data + [x])[1..] == data[1..] + [x];
      SumSnoc(data[1..], x);
    }
  }

  /**
   * The running sums in closed form: `chkA` is one plus the byte sum and
   * `chkB` is the byte count plus the position-weighted sum, both modulo 256.
   */
  lemma {:induction false} ChecksumClosedForm(data: seq<Byte>)
    ensures Checksum(data) == ((1 + Sum(data)) % 256, (|data| + Weighted(data)) % 256)
    decreases |data|
  {
    if data != [] {
      var d := data[..|data| - 1];
      var x := data[|data| - 1];
      assert data == d + [x];
      ChecksumClosedForm(d);
      SumSnoc(d, x);
      var a := (1 + Sum(d)) % 256;
      var b := (|d| + Weighted(d)) % 256;
      var a' := (a + x) % 256;
      assert Checksum(data) == (a', (b + a') % 256);
      ModAdd(1 + Sum(d), x);
      assert a' == (1 + Sum(data)) % 256;
      ModAdd(|d| + Weighted(d), 1 + Sum(d) + x);
      assert (b + a') % 256 == (|d| + Weighted(d) + 1 + Sum(d) + x) % 256;
    }
  }

  lemma ModAdd(p: int, q: int)
    ensures (p % 256 + q % 256) % 256 == (p + q) % 256
    ensures (p % 256 + q) % 256 == (p + q) % 256
  {
  }

  /** The word that `#` must carry after `data` for the line to be accepted. */
  function Expected(data: seq<Byte>): int
  {
    Checksum(data).0 * 256 + Checksum(data).1
  }

  function DataWords(data: seq<Byte>): (ws: seq<HexWord>)
    ensures |ws| == |data|
  {
    seq(|data|, k requires 0 <= k < |data| => DataWord(data[k]))
  }

  /**
   * Entering a run of data bytes stores them from the start address on and
   * leaves the checksum of the run in the sums.
   */
  lemma {:induction false} EnterDataRun(m: Mem, addr: int, data: seq<Byte>, addrWord: seq<Byte>)
    requires 0 <= addr < 0x1_0000_0000
    ensures EnterWords(m, addr, DataWords(data), addrWord)
      == Entry(PokeAll(m, addr, data), (addr + |data|) % 0x1_0000_0000, Checksum(data).0, Checksum(data).1)
    decreases |data|
  {
    if data != [] {
      var n := |data| - 1;
      EnterDataRun(m, addr, data[..n], addrWord);
      EnterWordsSnoc(m, addr, data, addrWord);
      DataStep(EnterWords(m, addr, DataWords(data[..n]), addrWord), data[n], addrWord);
      PokeAllSnocWrapped(m, addr, data);
      NextWord32(addr + n);
      ChecksumSnoc(data);
    }
  }

  lemma EnterWordsSnoc(m: Mem, addr: int, data: seq<Byte>, addrWord: seq<Byte>)
    requires data != []
    ensures EnterWords(m, addr, DataWords(data), addrWord)
      == EnterStep(EnterWords(m, addr, DataWords(data[..|data| - 1]), addrWord), DataWord(data[|data| - 1]), addrWord)
  {
    var n := |data| - 1;
    assert DataWords(data)[..n] == DataWords(data[..n]);
  }

  lemma DataStep(e: Entry, x: Byte, addrWord: seq<Byte>)
    ensures EnterStep(e, DataWord(x), addrWord)
      == Entry(Poke(e.mem, e.addr, x), (e.addr + 1) % 0x1_0000_0000, (e.chkA + x) % 256, (e.chkB + (e.chkA + x) % 256) % 256)
  {
    assert Low(x) == x;
  }

  lemma PokeAllSnocWrapped(m: Mem, addr: int, data: seq<Byte>)
    requires 0 <= addr && data != []
    ensures Poke(PokeAll(m, addr, data[..|data| - 1]), (addr + |data| - 1) % 0x1_0000_0000, data[|data| - 1])
      == PokeAll(m, addr, data)
  {
    var n := |data| - 1;
    AddrOfWord32(addr + n);
    assert data[..n] == data[..|data| - 1];
  }

  /** Incrementing a wrapped 32-bit counter. */
  lemma NextWord32(y: int)
    ensures (y % 0x1_0000_0000 + 1) % 0x1_0000_0000 == (y + 1) % 0x1_0000_0000
  {
  }

  lemma ChecksumSnoc(data: seq<Byte>)
    requires data != []
    ensures var c := Checksum(data[..|data| - 1]);
      var a := (c.0 + data[|data| - 1]) % 256;
      Checksum(data) == (a, (c.1 + a) % 256)
  {
  }

  /**
   * A line of data bytes followed by `#` and a checksum word is accepted
   * (nothing printed, memory holds the bytes) exactly when the word equals
   * `Expected(data)` modulo 2^32.
   */
  lemma ChecksumAccepted(m: Mem, addr: int, data: seq<Byte>, check: int, addrWord: seq<Byte>)
    requires 0 <= addr < 0x1_0000_0000
    ensures var e := EnterWords(m, addr, DataWords(data) + [CheckWord(check)], addrWord);
      (check % 0x1_0000_0000 == Expected(data) ==> e.mem == PokeAll(m, addr, data))
      && (check % 0x1_0000_0000 != Expected(data) ==> e.mem == Screen.PrintedText(PokeAll(m, addr, data), 28, 26, addrWord))
  {
    var ws := DataWords(data) + [CheckWord(check)];
    assert ws[..|ws| - 1] == DataWords(data);
    EnterDataRun(m, addr, data, addrWord);
  }

  /**
   * Hex entry as the monitor runs it on the words after `0xADDR`; `addrWord`
   * is that address word, echoed at column 28 of row 27 at the end.
   */
  method EnterHex(ram: array<Byte>, addr: int, words: seq<HexWord>, addrWord: seq<Byte>)
    requires ram.Length == RAM_SIZE && 0 <= addr < 0x1_0000_0000
    modifies ram
    ensures ram[..] == Screen.PrintedText(EnterWords(old(ram[..]), addr, words, addrWord).mem, 28, 27, addrWord)
  {
    ghost var m := ram[..];
    var a := addr;
    var chkA: Byte, chkB: Byte := 1, 0;
    var i := 0;
    while i < |words|
      decreases |words| - i
      invariant 0 <= i <= |words|
      invariant EnterWords(m, addr, words[..i], addrWord) == Entry(ram[..], a, chkA, chkB)
    {
      assert words[..i + 1][..i] == words[..i];
      match words[i] {
        case DataWord(v) =>
          var data := Low(v);
          while ram[Addr(a)] != data
            decreases if ram[Addr(a)] == data then 0 else 1
            invariant ram[..] == EnterWords(m, addr, words[..i], addrWord).mem
                               || ram[..] == Poke(EnterWords(m, addr, words[..i], addrWord).mem, a, data)
          {
            Cpoke(ram, a, data);
          }
          assert ram[..] == Poke(EnterWords(m, addr, words[..i], addrWord).mem, a, data);
          chkA := (chkA + data) % 256;
          chkB := (chkB + chkA) % 256;
          a := (a + 1) % 0x1_0000_0000;
        case CheckWord(v) =>
          a := v % 0x1_0000_0000;
          if a != chkA * 256 + chkB {
            Screen.CprintString(ram, 28, 26, addrWord);
          }
      }
      i := i + 1;
    }
    assert words[..i] == words;
    Screen.CprintString(ram, 28, 27, addrWord);
  }
}
