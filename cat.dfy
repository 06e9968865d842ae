/**
 * The CAT firmware's own state and main loop: guest memory, the monitor's
 * edit line and its history, the cursor, the run and interrupt flags, the
 * directory stream, the card and the two emulated processors. Each method
 * is one of the firmware's routines, proved against the functions of the
 * other modules that say what the routine computes.
 */
module Firmware {
  import opened Bus
  import Screen
  import opened Storage
  import opened Monitor
  import opened EditLine
  import Mailbox
  import EmuCpu

  // ---------------------------------------------------------------- keys

  const KEY_ENTER: int := 13
  const KEY_DELETE: int := 127
  /**
   * Keys without an ASCII code arrive as minus their keyboard driver's
   * virtual-key number; the model only relies on these being distinct and
   * negative.
   */
  const KEY_F12: int := -1
  const KEY_UP: int := -2
  const KEY_DOWN: int := -3
  const KEY_LEFT: int := -4

  /** What `readKey` can return: 0 for no key, an ASCII byte, or a negated virtual key. */
  predicate KeyCode(key: int)
  {
    key < 256
  }

  /** The character set file that `stopCode` reloads: "chardefs.bin". */
  const CHARDEFS: Name := [0x63, 0x68, 0x61, 0x72, 0x64, 0x65, 0x66, 0x73, 0x2E, 0x62, 0x69, 0x6E]

  /** Guest cycles per 50 Hz tick: a 20 ms slice of an 8 MHz or a 4 MHz clock. */
  function Budget(fast: bool): (b: int)
    ensures b * 50 == if fast then 8_000_000 else 4_000_000
  {
    if fast then 160000 else 80000
  }

  // ---------------------------------------------------------------- the edit line on screen

  /**
   * Memory after `cprintEditLine`: byte i of the edit line in column i + 2
   * of row 29, which are 38 consecutive tile-map cells.
   */
  function ShowEditLine(m: Mem, line: Line): Mem
  {
    PokeAll(m, Screen.CharAddr(2, 29), line)
  }

  /**
   * The edit line occupies exactly columns 2..39 of row 29, column x
   * showing byte x - 2; no other byte of memory changes.
   */
  lemma EditLineOnRow29(m: Mem, line: Line, a: int)
    requires 0 <= a < RAM_SIZE
    ensures Screen.InBox(a, 2, 39, 29, 29) ==> ShowEditLine(m, line)[a] == line[Screen.Col(a) - 2]
    ensures !Screen.InBox(a, 2, 39, 29, 29) ==> ShowEditLine(m, line)[a] == m[a]
  {
    PokeAllAt(m, Screen.CharAddr(2, 29), line, a);
  }

  // ---------------------------------------------------------------- edit keys

  /**
   * What an edit key does to the line and cursor while no guest runs
   * (Enter excepted): Up recalls the previous line, Down clears, Delete
   * and Left delete, other keys without an ASCII code do nothing, and an
   * ASCII key types its byte.
   */
  function KeyEffect(line: Line, pos: int, previous: Line, key: int): (Line, int)
    requires 0 <= pos <= LAST && 0 in previous
  {
    if key == KEY_UP then Recall(previous)
    else if key == KEY_DOWN then Cleared()
    else if key == KEY_DELETE || key == KEY_LEFT then DeleteChar(line, pos)
    else if key < 0 then (line, pos)
    else TypeChar(line, pos, Low(key))
  }

  /** Keys after which `cat_loop` reprints the edit line. */
  predicate Reprints(key: int)
  {
    key >= 0 || key == KEY_UP || key == KEY_DOWN || key == KEY_LEFT
  }

  /**
   * Every edit key keeps the line well formed as long as the history is,
   * and changes the text as the key says: Up brings back the previous
   * text, Down empties it, Delete and Left drop the last byte, a key with
   * an ASCII code appends it unless the line is full.
   */
  lemma {:induction false} KeyEffectKeepsLine(line: Line, pos: int, previous: Line, prevPos: int, key: int)
    requires WellFormed(line, pos) && WellFormed(previous, prevPos)
    requires KeyCode(key) && key != 0 && key != KEY_ENTER
    ensures 0 in previous
    ensures var (l, p) := KeyEffect(line, pos, previous, key);
      WellFormed(l, p)
      && (key == KEY_UP ==> Text(l, p) == Text(previous, prevPos))
      && (key == KEY_DOWN ==> Text(l, p) == [])
      && (key == KEY_DELETE || key == KEY_LEFT ==> Text(l, p) == if pos > 1 then Text(line, pos)[..pos - 2] else [])
      && (0 < key && key != KEY_DELETE ==> Text(l, p) == if pos < LAST then Text(line, pos) + [key as Byte] else Text(line, pos))
      && (key < 0 && !Reprints(key) ==> (l, p) == (line, pos))
  {
    RecallRestores(previous, prevPos);
    if key == KEY_UP {
    } else if key == KEY_DOWN {
    } else if key == KEY_DELETE || key == KEY_LEFT {
      DeleteCharDrops(line, pos);
    } else if key > 0 {
      TypeCharAppends(line, pos, Low(key));
    }
  }

  // ---------------------------------------------------------------- file names and stop

  /** `bytesRead` after a load: the new count when the file was opened, the old one otherwise. */
  function Counted(l: Loaded, previous: int): (n: int)
    ensures l.bytesRead == None ==> n == previous
    ensures l.bytesRead.Some? ==> n == l.bytesRead.value
  {
    if l.bytesRead.Some? then l.bytesRead.value else previous
  }

  /**
   * The name a handler reads out of the edit line after `cpeekStr` copied
   * a terminated payload name into it (the bytes before the first 0) is
   * the payload's name.
   */
  lemma BufferHoldsName(m: Mem, a: int, buf: Line, name: Name)
    requires Mailbox.NameTerminated(m, a)
    requires var b := Mailbox.NameBuffer(m, a, buf);
      |name| < LINE_LEN && 0 !in name && b[|name|] == 0 && name == b[..|name|]
    ensures name == Mailbox.PayloadName(m, a)
  {
    var b := Mailbox.NameBuffer(m, a, buf);
    var n := FirstZero(m, a, Mailbox.NAME_MAX);
    assert b[n] == 0;
    assert forall k :: 0 <= k < n ==> b[k] == ByteAt(m, a, k) && b[k] != 0;
    assert forall k :: 0 <= k < |name| ==> b[k] == name[k] && b[k] != 0;
    assert |name| == n;
  }

  /** Counting up from a wrapped address without passing the top of memory. */
  lemma AddrAhead(a: int, i: int)
    requires 0 <= i && Addr(a) + i < RAM_SIZE
    ensures Addr(a + i) == Addr(a) + i
  {
    var q := a / RAM_SIZE;
    assert a == q * RAM_SIZE + Addr(a);
    assert a + i == q * RAM_SIZE + (Addr(a) + i);
  }

  /** Memory as `stopCode` leaves it, apart from the frame, banner and status texts. */
  function Stopped(m: Mem, c: Card): Mem
  {
    ShowEditLine(Screen.Fill(Load(c, m, CHARDEFS, CHAR_TABLE).mem, 1, Screen.COLS, 1, Screen.ROWS, Screen.SPACE), Cleared().0)
  }

  /**
   * Stopping a guest restores the character set from the card: the glyph
   * table holds the file's bytes as far as the file reaches, the rest of
   * the table and everything below it keep what the guest left, and the
   * edit line row shows an empty prompt line.
   */
  lemma StopRestoresCharset(m: Mem, c: Card, x: int)
    requires 0 <= x < TILE_MAP
    ensures Exists(c, CHARDEFS) && CHAR_TABLE <= x && x - CHAR_TABLE < |c.files[CHARDEFS]| ==>
      Stopped(m, c)[x] == c.files[CHARDEFS][x - CHAR_TABLE]
    ensures !(Exists(c, CHARDEFS) && CHAR_TABLE <= x && x - CHAR_TABLE < |c.files[CHARDEFS]|) ==>
      Stopped(m, c)[x] == m[x]
    ensures forall k :: 0 <= k < LINE_LEN ==> Stopped(m, c)[Screen.CharAddr(k + 2, 29)] == Cleared().0[k]
  {
    var l := Load(c, m, CHARDEFS, CHAR_TABLE);
    var f := Screen.Fill(l.mem, 1, Screen.COLS, 1, Screen.ROWS, Screen.SPACE);
    EditLineOnRow29(f, Cleared().0, x);
    LoadPlacesBytes(c, m, CHARDEFS, CHAR_TABLE, x);
    forall k | 0 <= k < LINE_LEN
      ensures Stopped(m, c)[Screen.CharAddr(k + 2, 29)] == Cleared().0[k]
    {
      Screen.CellRoundTrip(k + 2, 29);
      EditLineOnRow29(f, Cleared().0, Screen.CharAddr(k + 2, 29));
    }
  }

  // ---------------------------------------------------------------- one pass of the loop

  /** What the key half of `cat_loop` leaves: the handlers' view, the cursor and the run flag. */
  datatype Keyed = Keyed(g: Mailbox.Guest, pos: int, running: bool)

  /**
   * The state after one key of `cat_loop`. No key changes nothing. While a
   * guest runs, F12 stops it as `stopCode` does, a key with an ASCII code
   * goes to the outbox and the other keys are dropped. With no guest the
   * key edits the line as `KeyEffect` says, and the line is reprinted
   * after the keys the switch reprints for. A key never touches the
   * directory stream or the card, a key for a running guest leaves its
   * posted request alone, and only F12 stops the guest.
   */
  function AfterKey(g: Mailbox.Guest, pos: int, previous: Line, running: bool, key: int): (r: Keyed)
    requires 0 <= pos <= LAST && 0 in previous
    ensures r.g.cd == g.cd && r.g.sd == g.sd
    ensures r.running == (running && key != KEY_F12)
    ensures Mailbox.GuestOk(g) ==> Mailbox.GuestOk(r.g)
    ensures running && key != KEY_F12 ==>
      r.g.nameBuf == g.nameBuf && r.pos == pos && r.g.bytesRead == g.bytesRead
      && Peek(r.g.mem, INBOX_FLAG) == Peek(g.mem, INBOX_FLAG)
      && PeekWord(r.g.mem, INBOX_DATA) == PeekWord(g.mem, INBOX_DATA)
    ensures !running ==> r.g.bytesRead == g.bytesRead
  {
    if key == 0 then Keyed(g, pos, running)
    else if running then
      if key == KEY_F12 then
        Keyed(g.(mem := Stopped(g.mem, g.sd), nameBuf := Cleared().0,
                 bytesRead := Counted(Load(g.sd, g.mem, CHARDEFS, CHAR_TABLE), g.bytesRead)),
              Cleared().1, false)
      else if key > 0 then Keyed(g.(mem := Mailbox.DeliverKey(g.mem, key)), pos, true)
      else Keyed(g, pos, true)
    else
      var (l, p) := KeyEffect(g.nameBuf, pos, previous, key);
      Keyed(g.(mem := if Reprints(key) then ShowEditLine(g.mem, l) else g.mem, nameBuf := l), p, false)
  }

  /** The state of the firmware's globals. */
  class Cat {
    const ram: array<Byte>
    const editLine: array<Byte>
    const previousEditLine: array<Byte>
    const cpus: EmuCpu.Cpus
    var pos: int
    /** `getNextWord`'s static `initialPosition`. */
    var initialPosition: int
    var bytesRead: int
    /** true for the Z80, false for the 6502. */
    var mode: bool
    var fast: bool
    var cpurunning: bool
    var interruptFlag: bool
    var cd: Mailbox.Cursor
    var sd: Card
    /** Where the cursor was in the line the history holds. */
    ghost var prevPos: int

    /** What holds whether or not a guest runs. */
    ghost predicate Sound()
      reads this, previousEditLine
    {
      ram.Length == RAM_SIZE && editLine.Length == LINE_LEN && previousEditLine.Length == LINE_LEN
      && ram != editLine && ram != previousEditLine && editLine != previousEditLine
      && 0 <= pos <= LAST && 0 <= initialPosition <= LINE_LEN && 0 <= bytesRead < 0x10000
      && Storage.Valid(sd)
      && WellFormed(previousEditLine[..], prevPos)
    }

    /** While no guest runs the edit line is well formed. */
    ghost predicate Valid()
      reads this, editLine, previousEditLine
    {
      Sound() && (!cpurunning ==> WellFormed(editLine[..], pos))
    }

    /** What the request handlers see. */
    function Snapshot(): Mailbox.Guest
      reads this, ram, editLine
      requires ram.Length == RAM_SIZE && editLine.Length == LINE_LEN
    {
      Mailbox.Guest(ram[..], editLine[..], bytesRead, cd, sd)
    }

    /**
     * The globals' initial values, `setup`'s `init_cpus` (both cores reset)
     * and its final `clearEditLine`. The
     * history starts as a cleared line rather than as zeros (see
     * `RecallBeforeHistory`).
     */
    constructor(card: Card)
      requires Storage.Valid(card)
      ensures Valid() && fresh(ram) && fresh(editLine) && fresh(previousEditLine) && fresh(cpus)
      ensures editLine[..] == Cleared().0 && pos == Cleared().1 && previousEditLine[..] == Cleared().0
      ensures !cpurunning && !interruptFlag && !mode && fast && bytesRead == 0 && initialPosition == 0
      ensures cd == Mailbox.Unopened && sd == card
      ensures cpus.z80 == [EmuCpu.Event.Reset] && cpus.m6502 == [EmuCpu.Event.Reset]
    {
      ram := new Byte[RAM_SIZE](_ => 0);
      var blank := Cleared().0;
      editLine := new Byte[LINE_LEN](i requires 0 <= i < LINE_LEN => blank[i]);
      previousEditLine := new Byte[LINE_LEN](i requires 0 <= i < LINE_LEN => blank[i]);
      cpus := new EmuCpu.Cpus();
      pos := 1;
      prevPos := 1;
      initialPosition := 0;
      bytesRead := 0;
      mode := false;
      fast := true;
      cpurunning := false;
      interruptFlag := false;
      cd := Mailbox.Unopened;
      sd := card;
      new;
      assert editLine[..] == blank && previousEditLine[..] == blank;
    }

    /** `cprintEditLine`. */
    method PrintEditLine()
      requires Sound()
      modifies ram
      ensures ram[..] == ShowEditLine(old(ram[..]), editLine[..])
    {
      ghost var m := ram[..];
      var i := 0;
      while i < LINE_LEN
        invariant 0 <= i <= LINE_LEN
        invariant ram[..] == PokeAll(m, Screen.CharAddr(2, 29), editLine[..i])
      {
        assert editLine[..i + 1][..i] == editLine[..i];
        assert Addr(Screen.CharAddr(2, 29) + i) == Screen.CharAddr(i + 2, 29);
        Screen.CprintChar(ram, i + 2, 29, editLine[i]);
        i := i + 1;
      }
      assert editLine[..i] == editLine[..];
    }

    /** `clearEditLine`: prompt, cursor after it, blanks; then reprint. */
    method ClearEditLine()
      requires Sound()
      modifies this`pos, editLine, ram
      ensures editLine[..] == Cleared().0 && pos == Cleared().1
      ensures ram[..] == ShowEditLine(old(ram[..]), editLine[..])
      ensures Sound()
    {
      editLine[0] := PROMPT;
      editLine[1] := 0;
      var i := 2;
      while i < LINE_LEN
        invariant 2 <= i <= LINE_LEN && editLine[0] == PROMPT && editLine[1] == 0
        invariant forall k :: 2 <= k < i ==> editLine[k] == BLANK
        invariant ram[..] == old(ram[..])
      {
        editLine[i] := BLANK;
        i := i + 1;
      }
      pos := 1;
      assert editLine[..] == Cleared().0;
      PrintEditLine();
    }

    /** Up: copy the history into the edit line and put the cursor on its first 0. */
    method RecallLine()
      requires Sound()
      modifies this`pos, editLine
      ensures 0 in previousEditLine[..]
      ensures editLine[..] == Recall(previousEditLine[..]).0 && pos == Recall(previousEditLine[..]).1
      ensures pos == prevPos && WellFormed(editLine[..], pos)
    {
      var i := 0;
      while i < LINE_LEN
        invariant 0 <= i <= LINE_LEN
        invariant forall k :: 0 <= k < i ==> editLine[k] == previousEditLine[k]
      {
        editLine[i] := previousEditLine[i];
        i := i + 1;
      }
      assert editLine[..] == previousEditLine[..];
      i := 0;
      while editLine[i] != 0
        invariant 0 <= i <= prevPos
        invariant forall k :: 0 <= k < i ==> editLine[k] != 0
        decreases prevPos - i
      {
        i := i + 1;
      }
      RecallRestores(previousEditLine[..], prevPos);
      pos := i;
    }

    /** Delete or Left: blank the cursor cell, step left unless at 1, mark the cursor. */
    method DeleteKey()
      requires Sound()
      modifies this`pos, editLine
      ensures editLine[..] == DeleteChar(old(editLine[..]), old(pos)).0 && pos == DeleteChar(old(editLine[..]), old(pos)).1
    {
      editLine[pos] := BLANK;
      if pos > 1 {
        pos := pos - 1;
      }
      editLine[pos] := 0;
    }

    /** An ASCII key: its byte under the cursor, step right unless at 37, mark the cursor. */
    method TypeKey(c: Byte)
      requires Sound()
      modifies this`pos, editLine
      ensures editLine[..] == TypeChar(old(editLine[..]), old(pos), c).0 && pos == TypeChar(old(editLine[..]), old(pos), c).1
    {
      editLine[pos] := c;
      if pos < LAST {
        pos := pos + 1;
      }
      editLine[pos] := 0;
    }

    /**
     * One key of `cat_loop`'s monitor branch other than Enter: the line
     * and cursor change as `KeyEffect` says and the line is reprinted,
     * except for keys the switch ignores.
     */
    method EditKey(key: int)
      requires Valid() && !cpurunning && KeyCode(key) && key != 0 && key != KEY_ENTER
      modifies this`pos, editLine, ram
      ensures 0 in old(previousEditLine[..])
      ensures editLine[..] == KeyEffect(old(editLine[..]), old(pos), old(previousEditLine[..]), key).0
      ensures pos == KeyEffect(old(editLine[..]), old(pos), old(previousEditLine[..]), key).1
      ensures ram[..] == if Reprints(key) then ShowEditLine(old(ram[..]), editLine[..]) else old(ram[..])
      ensures Valid()
    {
      KeyEffectKeepsLine(editLine[..], pos, previousEditLine[..], prevPos, key);
      if key == KEY_UP {
        RecallLine();
        PrintEditLine();
      } else if key == KEY_DOWN {
        ClearEditLine();
      } else if key == KEY_DELETE || key == KEY_LEFT {
        DeleteKey();
        PrintEditLine();
      } else if key > 0 {
        TypeKey(Low(key));
        PrintEditLine();
      }
    }

    /** `RequestDefined(key)`: the request the handler will find after this key is one it can serve. */
    ghost predicate RequestDefined(key: int)
      reads this, ram, editLine, previousEditLine
      requires Sound()
    {
      cpurunning && key != KEY_F12 ==>
        Mailbox.Defined(Snapshot().(mem := if key > 0 then Mailbox.DeliverKey(ram[..], key) else ram[..]))
    }

    /**
     * `getNextWord`, with the bounds check the written loops lack (see
     * `EditLine.NextWordAsWritten`): the next word from the remembered
     * position, or from position 1, and where the next call starts.
     */
    method GetNextWord(fromTheBeginning: bool) returns (word: seq<Byte>)
      requires Sound()
      modifies this`initialPosition
      ensures var start := if fromTheBeginning then 1 else old(initialPosition);
        word == NextWord(editLine[..], start).0 && initialPosition == NextWord(editLine[..], start).1
      ensures Sound()
    {
      ghost var line: Line := editLine[..];
      if fromTheBeginning {
        initialPosition := 1;
      }
      ghost var start := initialPosition;
      var i := initialPosition;
      while i < LINE_LEN && IsSeparator(editLine[i])
        invariant start <= i <= LINE_LEN
        invariant SkipSeparators(line, i) == SkipSeparators(line, start)
      {
        i := i + 1;
      }
      assert SkipSeparators(line, start) == i;
      if i == LINE_LEN || editLine[i] == 0 {
        assert NextWord(line, start) == ([], i);
        initialPosition := i;
        return [];
      }
      var j := i + 1;
      while j < LINE_LEN && InWord(editLine[j])
        invariant i + 1 <= j <= LINE_LEN
        invariant WordEnd(line, j) == WordEnd(line, i + 1)
      {
        j := j + 1;
      }
      assert WordEnd(line, i + 1) == j;
      assert NextWord(line, start) == (line[i..j], j);
      word := editLine[i..j];
      initialPosition := j;
    }

    /**
     * `load`: a missing name or a file that cannot be opened changes
     * nothing; otherwise `bytesRead` restarts at 0 and each byte read is
     * counted and stored through a 16-bit address, stopping when that
     * address wraps to 0.
     */
    method LoadFile(filename: Name, startAddr: int) returns (status: Status)
      requires Sound()
      modifies this`bytesRead, ram
      ensures var r := Load(sd, old(ram[..]), filename, startAddr);
        status == r.status && ram[..] == r.mem && bytesRead == Counted(r, old(bytesRead))
      ensures Sound()
    {
      if filename == [] {
        return MissingOperand;
      }
      if !Exists(sd, filename) {
        return CannotOpen;
      }
      var data := sd.files[filename];
      ghost var m := ram[..];
      var addr := Addr(startAddr);
      bytesRead := 0;
      var i := 0;
      while i < |data|
        invariant 0 <= i <= LoadCount(startAddr, |data|)
        invariant addr == Addr(startAddr) + i < RAM_SIZE
        invariant bytesRead == i % 0x10000
        invariant ram[..] == PokeAll(m, startAddr, data[..i])
      {
        bytesRead := (bytesRead + 1) % 0x10000;
        assert data[..i + 1][..i] == data[..i];
        AddrAhead(startAddr, i);
        Cpoke(ram, addr, data[i]);
        addr := (addr + 1) % 0x10000;
        i := i + 1;
        if addr == 0 {
          break;
        }
      }
      assert i == LoadCount(startAddr, |data|);
      status := Ready;
    }

    /** The C string in the edit line: the bytes before its first 0. */
    method BufferedName() returns (name: Name)
      requires Sound() && 0 in editLine[..]
      ensures |name| < LINE_LEN && 0 !in name && editLine[|name|] == 0 && name == editLine[..|name|]
    {
      ghost var z :| 0 <= z < LINE_LEN && editLine[z] == 0;
      var i := 0;
      while editLine[i] != 0
        invariant 0 <= i <= z
        invariant forall k :: 0 <= k < i ==> editLine[k] != 0
        decreases z - i
      {
        i := i + 1;
      }
      name := editLine[..i];
    }

    /** `cpeekStr` of a payload name into the edit line, then the name read back from it. */
    method PayloadNameIn(address: int) returns (name: Name)
      requires Sound() && Mailbox.NameTerminated(ram[..], address)
      modifies editLine
      ensures name == Mailbox.PayloadName(ram[..], address)
      ensures editLine[..] == Mailbox.NameBuffer(ram[..], address, old(editLine[..]))
    {
      ghost var buf: Line := editLine[..];
      var found := CpeekStr(ram, address, editLine, Mailbox.NAME_MAX);
      ghost var n := FirstZero(ram[..], address, Mailbox.NAME_MAX);
      assert editLine[..][n] == 0;
      name := BufferedName();
      BufferHoldsName(ram[..], address, buf, name);
    }

    /**
     * `cmdLoad`: load the payload's file at the payload's address, then
     * store `bytesRead` in the payload's count slot.
     */
    method CmdLoad(address: int) returns (status: Status)
      requires Sound() && Mailbox.NameTerminated(ram[..], address + 4)
      modifies this`bytesRead, ram, editLine
      ensures status == Mailbox.CmdLoad(old(Snapshot()), address).0
      ensures Snapshot() == Mailbox.CmdLoad(old(Snapshot()), address).1
      ensures Sound()
    {
      var start := CpeekW(ram, address);
      var name := PayloadNameIn(address + 4);
      status := LoadFile(name, start);
      CpokeW(ram, address + 2, bytesRead);
    }

    /** `cmdSave`: save `length` bytes from the payload's start address under the payload's name. */
    method CmdSave(address: int) returns (status: Status)
      requires Sound() && Mailbox.NameTerminated(ram[..], address + 4)
      modifies this`sd, editLine
      ensures status == Mailbox.CmdSave(old(Snapshot()), address).0
      ensures Snapshot() == Mailbox.CmdSave(old(Snapshot()), address).1
      ensures Sound()
    {
      var start := CpeekW(ram, address);
      var length := CpeekW(ram, address + 2);
      var name := PayloadNameIn(address + 4);
      var card;
      status, card := SaveFile(ram, sd, name, start, Mailbox.CmdSaveEnd(start, length));
      sd := card;
    }

    /** `cmdDelFile`: delete the file the payload names. */
    method CmdDelFile(address: int) returns (status: Status)
      requires Sound() && Mailbox.NameTerminated(ram[..], address)
      modifies this`sd, editLine
      ensures status == Mailbox.CmdDelFile(old(Snapshot()), address).0
      ensures Snapshot() == Mailbox.CmdDelFile(old(Snapshot()), address).1
      ensures Sound()
    {
      var name := PayloadNameIn(address);
      var r := DelFile(sd, name);
      status := r.0;
      sd := r.1;
    }

    /** `cmdCatOpen`: open the listing. */
    method CmdCatOpen() returns (status: Status)
      requires Sound()
      modifies this`cd
      ensures status == Mailbox.CmdCatOpen(old(Snapshot())).0
      ensures Snapshot() == Mailbox.CmdCatOpen(old(Snapshot())).1
      ensures Sound()
    {
      cd := Mailbox.Open(sd.order);
      status := Ready;
    }

    /** `cmdCatEntry`: the next entry's size and name into the payload, or the end of the listing. */
    method CmdCatEntry(address: int) returns (status: Status)
      requires Sound() && cd.Open?
      modifies this`cd, ram
      ensures status == Mailbox.CmdCatEntry(old(Snapshot()), address).0
      ensures Snapshot() == Mailbox.CmdCatEntry(old(Snapshot()), address).1
      ensures Sound()
    {
      if cd.rest == [] {
        cd := Mailbox.Closed;
        return Eof;
      }
      var name := cd.rest[0];
      CpokeL(ram, address, FileSize(sd, name));
      var ok := CpokeStr(ram, address + 4, name);
      cd := Mailbox.Open(cd.rest[1..]);
      status := Ready;
    }

    /** The `switch` of `messageHandler` for a request code other than reset. */
    method Serve(flag: Byte, address: int) returns (status: Status)
      requires Sound() && flag == Peek(ram[..], INBOX_FLAG) && address == PeekWord(ram[..], INBOX_DATA)
      requires Mailbox.Defined(Snapshot())
      modifies this`bytesRead, this`cd, this`sd, ram, editLine
      ensures status == Mailbox.Dispatch(old(Snapshot()), flag).0
      ensures Snapshot() == Mailbox.Dispatch(old(Snapshot()), flag).1
      ensures Sound()
    {
      if flag == Mailbox.REQ_LOAD {
        status := CmdLoad(address);
      } else if flag == Mailbox.REQ_SAVE {
        status := CmdSave(address);
      } else if flag == Mailbox.REQ_DELETE {
        status := CmdDelFile(address);
      } else if flag == Mailbox.REQ_CAT_OPEN {
        status := CmdCatOpen();
      } else if flag == Mailbox.REQ_CAT_ENTRY {
        status := CmdCatEntry(address);
      } else {
        status := Ready;
      }
    }

    /**
     * `messageHandler`: while a guest runs, serve the request in the
     * inbox flag and answer it there; a reset request restarts the
     * machine instead (`reset`).
     */
    method MessageHandler() returns (reset: bool)
      requires Valid() && (cpurunning ==> Mailbox.Defined(Snapshot()))
      modifies this`cpurunning, this`bytesRead, this`cd, this`sd, ram, editLine
      ensures reset == Mailbox.Handle(old(Snapshot()), old(cpurunning)).SystemReset?
      ensures !reset ==> Snapshot() == Mailbox.Handle(old(Snapshot()), old(cpurunning)).g
      ensures !reset ==> cpurunning == old(cpurunning) && Valid()
    {
      reset := false;
      if cpurunning {
        cpurunning := false;
        var flag := ram[INBOX_FLAG];
        if 0 < flag < 0x80 {
          var address := CpeekW(ram, INBOX_DATA);
          if flag == Mailbox.REQ_RESET {
            reset := true;
            return;
          }
          var status := Serve(flag, address);
          Cpoke(ram, INBOX_FLAG, Mailbox.Reply(status));
        }
        cpurunning := true;
      }
    }

    /**
     * `runCode`: clear the screen and the mailbox, plant the selected
     * processor's start-up code, reset both cores and let the guest run.
     */
    method RunCode()
      requires Sound()
      modifies this`cpurunning, ram, cpus
      ensures ram[..] == RunCodeMem(old(ram[..]), mode) && cpurunning && Valid()
      ensures cpus.z80 == old(cpus.z80) + [EmuCpu.Event.Reset] && cpus.m6502 == old(cpus.m6502) + [EmuCpu.Event.Reset]
    {
      var runL := CODE_START % 256;
      var runH := CODE_START / 256;
      Screen.Ccls(ram);
      Cpoke(ram, OUTBOX_FLAG, 0);
      Cpoke(ram, OUTBOX_DATA, 0);
      Cpoke(ram, INBOX_FLAG, 0);
      if !mode {
        Cpoke(ram, 0xFFFA, 0xB0);
        Cpoke(ram, 0xFFFB, 0xFC);
        Cpoke(ram, NMI_STUB, RTI);
        Cpoke(ram, 0xFFFC, runL);
        Cpoke(ram, 0xFFFD, runH);
      } else {
        Cpoke(ram, 0x0066, 0xED);
        Cpoke(ram, 0x0067, 0x45);
        Cpoke(ram, 0x0000, JP);
        Cpoke(ram, 0x0001, runL);
        Cpoke(ram, 0x0002, runH);
      }
      cpus.Reset();
      cpurunning := true;
    }

    /**
     * `stopCode`: the guest stops, the character set is reloaded from the
     * card, the whole screen is cleared and the edit line starts afresh.
     */
    method StopCode()
      requires Sound()
      modifies this`cpurunning, this`bytesRead, this`pos, ram, editLine
      ensures ram[..] == Stopped(old(ram[..]), sd)
      ensures bytesRead == Counted(Load(sd, old(ram[..]), CHARDEFS, CHAR_TABLE), old(bytesRead))
      ensures !cpurunning && editLine[..] == Cleared().0 && pos == Cleared().1 && Valid()
    {
      cpurunning := false;
      var status := LoadFile(CHARDEFS, CHAR_TABLE);
      Screen.Ccls(ram);
      ClearEditLine();
    }

    /** `cpuInterrupt`: an NMI to the running core, and the request handler is due. */
    method CpuInterrupt()
      modifies this`interruptFlag, cpus
      ensures interruptFlag
      ensures cpus.z80 == old(cpus.z80) + (if cpurunning && mode then [EmuCpu.Event.Nmi] else [])
      ensures cpus.m6502 == old(cpus.m6502) + (if cpurunning && !mode then [EmuCpu.Event.Nmi] else [])
      ensures cpus.clockticks == old(cpus.clockticks)
    {
      if cpurunning {
        if mode {
          cpus.Z80Nmi();
        } else {
          cpus.M6502Nmi();
        }
      }
      interruptFlag := true;
    }

    /** A key for the running guest: into the outbox, flagged as new. */
    method SendKey(key: int)
      requires Sound()
      modifies ram
      ensures ram[..] == Mailbox.DeliverKey(old(ram[..]), key)
    {
      Cpoke(ram, OUTBOX_DATA, Low(key));
      Cpoke(ram, OUTBOX_FLAG, 1);
    }

    /**
     * The key half of `cat_loop`: no key does nothing; while a guest runs,
     * F12 stops it, any other key with an ASCII code goes to its outbox
     * and the rest are dropped; otherwise the key edits the edit line.
     */
    method KeyStep(key: int)
      requires Valid() && KeyCode(key) && (!cpurunning ==> key != KEY_ENTER)
      modifies this`cpurunning, this`bytesRead, this`pos, ram, editLine
      ensures 0 in old(previousEditLine[..])
      ensures Valid() && cpurunning == (old(cpurunning) && key != KEY_F12)
      ensures old(cpurunning) && key == KEY_F12 ==>
        ram[..] == Stopped(old(ram[..]), sd) && editLine[..] == Cleared().0 && pos == Cleared().1
        && bytesRead == Counted(Load(sd, old(ram[..]), CHARDEFS, CHAR_TABLE), old(bytesRead))
      ensures old(cpurunning) && key != KEY_F12 ==>
        ram[..] == (if key > 0 then Mailbox.DeliverKey(old(ram[..]), key) else old(ram[..]))
        && editLine[..] == old(editLine[..]) && pos == old(pos) && bytesRead == old(bytesRead)
      ensures !old(cpurunning) && key == 0 ==>
        ram[..] == old(ram[..]) && editLine[..] == old(editLine[..]) && pos == old(pos)
      ensures !old(cpurunning) && key != 0 ==>
        editLine[..] == KeyEffect(old(editLine[..]), old(pos), old(previousEditLine[..]), key).0
        && pos == KeyEffect(old(editLine[..]), old(pos), old(previousEditLine[..]), key).1
        && ram[..] == (if Reprints(key) then ShowEditLine(old(ram[..]), editLine[..]) else old(ram[..]))
      ensures !old(cpurunning) ==> bytesRead == old(bytesRead)
      ensures var k := AfterKey(old(Snapshot()), old(pos), old(previousEditLine[..]), old(cpurunning), key);
        Snapshot() == k.g && pos == k.pos && cpurunning == k.running
    {
      assert previousEditLine[..][prevPos] == 0;
      if key != 0 {
        if cpurunning {
          if key == KEY_F12 {
            StopCode();
          } else if key > 0 {
            SendKey(key);
          }
        } else {
          EditKey(key);
        }
      }
    }

    /**
     * `cat_loop`: the key as `AfterKey` says, then, if the interrupt has
     * come, the request handler on what the key left. A request posted
     * before the call is answered by its end unless it asked for a reset.
     */
    method CatLoop(key: int) returns (reset: bool)
      requires Valid() && KeyCode(key) && (!cpurunning ==> key != KEY_ENTER) && RequestDefined(key)
      modifies this`cpurunning, this`bytesRead, this`pos, this`interruptFlag, this`cd, this`sd, ram, editLine
      ensures 0 in old(previousEditLine[..])
      ensures var k := AfterKey(old(Snapshot()), old(pos), old(previousEditLine[..]), old(cpurunning), key);
        reset <==> old(interruptFlag) && k.running && Peek(k.g.mem, INBOX_FLAG) == Mailbox.REQ_RESET
      ensures !reset ==> Valid() && !interruptFlag && cpurunning == (old(cpurunning) && key != KEY_F12)
      ensures var k := AfterKey(old(Snapshot()), old(pos), old(previousEditLine[..]), old(cpurunning), key);
        !reset ==> (pos == k.pos
                    && Snapshot() == if old(interruptFlag) then Mailbox.Handle(k.g, k.running).g else k.g)
      ensures !reset && old(interruptFlag) && cpurunning ==> ram[INBOX_FLAG] == 0 || ram[INBOX_FLAG] >= 0x80
    {
      KeyStep(key);
      reset := false;
      if interruptFlag {
        interruptFlag := false;
        reset := MessageHandler();
      }
    }

    /**
     * One pass of `loop`, the 50 Hz tick: the interrupt, `cat_loop`, then
     * a slice of guest cycles whose size the `fast` flag selects.
     */
    method Tick(key: int, cost: nat -> int) returns (reset: bool)
      requires Valid() && KeyCode(key) && (!cpurunning ==> key != KEY_ENTER) && RequestDefined(key)
      requires forall i :: cost(i) >= 1
      modifies this`cpurunning, this`bytesRead, this`pos, this`interruptFlag, this`cd, this`sd, ram, editLine, cpus
      ensures 0 in old(previousEditLine[..])
      ensures var k := AfterKey(old(Snapshot()), old(pos), old(previousEditLine[..]), old(cpurunning), key);
        reset <==> k.running && Peek(k.g.mem, INBOX_FLAG) == Mailbox.REQ_RESET
      ensures !reset ==> Valid() && !interruptFlag && cpurunning == (old(cpurunning) && key != KEY_F12)
      ensures var k := AfterKey(old(Snapshot()), old(pos), old(previousEditLine[..]), old(cpurunning), key);
        !reset ==> pos == k.pos && Snapshot() == Mailbox.Handle(k.g, k.running).g
      ensures !reset && mode ==>
        cpus.z80 == old(cpus.z80) + (if old(cpurunning) then [EmuCpu.Event.Nmi] else [])
                    + (if cpurunning then EmuCpu.StepLog(cost, EmuCpu.Steps(Budget(fast), cost)) else [])
        && cpus.m6502 == old(cpus.m6502)
      ensures !reset && !mode ==>
        cpus.m6502 == old(cpus.m6502) + (if old(cpurunning) then [EmuCpu.Event.Nmi] else [])
                      + (if cpurunning then EmuCpu.StepLog(cost, EmuCpu.Steps(Budget(fast), cost)) else [])
        && cpus.z80 == old(cpus.z80)
        && (cpurunning ==> cpus.clockticks == EmuCpu.Spent(cost, EmuCpu.Steps(Budget(fast), cost)))
    {
      CpuInterrupt();
      reset := CatLoop(key);
      if reset {
        return;
      }
      cpus.ClockCycles(cpurunning, mode, Budget(fast), cost);
    }
  }
}
