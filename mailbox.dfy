/**
 * The mailbox between the guest program and the CAT. The guest posts a
 * request code in the inbox flag (0x0202) and a payload pointer in the inbox
 * word (0x0203); the CAT serves file requests and answers in the flag with
 * 0 or an error status plus 0x80. Keys travel the other way through the
 * outbox (0x0200 flag, 0x0201 data).
 */
module Mailbox {
  import opened Bus
  import opened Storage
  import opened Monitor
  import EditLine

  /** The directory stream that `cmdCatOpen` opens and `cmdCatEntry` reads. */
  datatype Cursor = Unopened | Open(rest: seq<Name>) | Closed

  /** Bytes `cpeekStr` may copy into the edit line for a payload file name. */
  const NAME_MAX: int := 38

  /**
   * What the request handlers read and change: guest memory, the edit line
   * (reused as the name buffer), the 16-bit `bytesRead`, the directory
   * cursor and the card.
   */
  datatype Guest = Guest(mem: Mem, nameBuf: EditLine.Line, bytesRead: int, cd: Cursor, sd: Card)

  ghost predicate GuestOk(g: Guest)
  {
    Valid(g.sd) && 0 <= g.bytesRead < 0x10000
  }

  /** The payload name at `a` ends within the 38 bytes `cpeekStr` copies. */
  predicate NameTerminated(m: Mem, a: int)
  {
    FirstZero(m, a, NAME_MAX) < NAME_MAX
  }

  /** The file name a payload carries: the bytes before its terminator. */
  function PayloadName(m: Mem, a: int): (n: Name)
    requires NameTerminated(m, a)
    ensures |n| < NAME_MAX && 0 !in n
    ensures CopiedBytes(m, a, NAME_MAX) == n + [0]
  {
    var n := seq(FirstZero(m, a, NAME_MAX), k => ByteAt(m, a, k));
    assert forall k :: 0 <= k < |n| ==> n[k] != 0;
    n
  }

  /** The edit line after `cpeekStr` copied a payload name into it. */
  function NameBuffer(m: Mem, a: int, buf: EditLine.Line): EditLine.Line
  {
    var c := CopiedBytes(m, a, NAME_MAX);
    c + buf[|c|..]
  }

  // ---------------------------------------------------------------- requests

  /**
   * `cmdLoad`: the payload holds the load address (word), a slot for the
   * count (word) and the name. The count slot receives `bytesRead`
   * whatever the outcome, so a failed load reports the previous count.
   */
  function CmdLoad(g: Guest, address: int): (r: (Status, Guest))
    requires GuestOk(g) && NameTerminated(g.mem, address + 4)
    ensures GuestOk(r.1) && r.1.sd == g.sd && r.1.cd == g.cd
  {
    var start := PeekWord(g.mem, address);
    var name := PayloadName(g.mem, address + 4);
    var l := Load(g.sd, g.mem, name, start);
    var br := if l.bytesRead.Some? then l.bytesRead.value else g.bytesRead;
    (l.status, g.(mem := PokeWord(l.mem, address + 2, br), nameBuf := NameBuffer(g.mem, address + 4, g.nameBuf), bytesRead := br))
  }

  /**
   * A load request reports `load`'s status, and the count slot then reads
   * back as the new `bytesRead`: the stored byte count modulo 2^16 after a
   * success, the previous count after a failure.
   */
  lemma CmdLoadAnswer(g: Guest, address: int)
    requires GuestOk(g) && NameTerminated(g.mem, address + 4)
    ensures var name := PayloadName(g.mem, address + 4);
      var start := PeekWord(g.mem, address);
      var l := Load(g.sd, g.mem, name, start);
      var (status, h) := CmdLoad(g, address);
      status == l.status
      && PeekWord(h.mem, address + 2) == h.bytesRead
      && h.bytesRead == (if status == Ready then LoadCount(start, |g.sd.files[name]|) % 0x10000 else g.bytesRead)
  {
    var name := PayloadName(g.mem, address + 4);
    var l := Load(g.sd, g.mem, name, PeekWord(g.mem, address));
    var r := CmdLoad(g, address);
    var h := r.1;
    LoadCounted(g.sd, g.mem, name, PeekWord(g.mem, address));
    assert r.0 == l.status;
    assert h.bytesRead == if l.bytesRead.Some? then l.bytesRead.value else g.bytesRead;
    assert h.mem == PokeWord(l.mem, address + 2, h.bytesRead);
    WordRoundTrip(l.mem, address + 2, h.bytesRead);
    assert PeekWord(h.mem, address + 2) == h.bytesRead;
  }

  /** A load reports a count exactly when it succeeds: the stored bytes modulo 2^16. */
  lemma LoadCounted(c: Card, m: Mem, name: Name, start: int)
    ensures var l := Load(c, m, name, start);
      (l.status == Ready <==> l.bytesRead.Some?)
      && (l.status == Ready ==> name in c.files && l.bytesRead.value == LoadCount(start, |c.files[name]|) % 0x10000)
  {
  }

  /**
   * `cmdSave`'s end address as written: `start + length - 1` in 32-bit
   * unsigned arithmetic.
   */
  function CmdSaveEndAsWritten(start: int, length: int): int
  {
    (start + length - 1) % 0x1_0000_0000
  }

  /**
   * Saving zero bytes from address 0 never finishes as written: the end
   * address wraps to 0xFFFFFFFF, which every 32-bit loop counter is at or
   * below, so `save`'s `i <= endAddress` never fails.
   */
  lemma SaveOfNothingNeverEnds()
    ensures CmdSaveEndAsWritten(0, 0) == 0xFFFF_FFFF
    ensures forall i :: 0 <= i < 0x1_0000_0000 ==> SaveLoopContinues(i, CmdSaveEndAsWritten(0, 0))
  {
  }

  /** The condition of `save`'s copy loop. */
  predicate SaveLoopContinues(i: int, endAddress: int)
  {
    i <= endAddress
  }

  /** The end address without wrap-around: an empty save is an empty range. */
  function CmdSaveEnd(start: int, length: int): int
  {
    start + length - 1
  }

  /** The two end addresses differ only for a zero-length save from address 0. */
  lemma CmdSaveEndAgrees(start: int, length: int)
    requires 0 <= start < 0x10000 && 0 <= length < 0x10000
    ensures CmdSaveEndAsWritten(start, length) == CmdSaveEnd(start, length) <==> start != 0 || length != 0
  {
  }

  /**
   * `cmdSave`: the payload holds the start address, the length (words) and
   * the name; the range is start .. start + length - 1.
   */
  function CmdSave(g: Guest, address: int): (r: (Status, Guest))
    requires GuestOk(g) && NameTerminated(g.mem, address + 4)
    ensures GuestOk(r.1) && r.1.mem == g.mem && r.1.cd == g.cd && r.1.bytesRead == g.bytesRead
  {
    var start := PeekWord(g.mem, address);
    var length := PeekWord(g.mem, address + 2);
    var name := PayloadName(g.mem, address + 4);
    var (status, sd) := Save(g.sd, g.mem, name, start, CmdSaveEnd(start, length));
    (status, g.(nameBuf := NameBuffer(g.mem, address + 4, g.nameBuf), sd := sd))
  }

  /**
   * A save request stores exactly `length` bytes from `start` on; a length
   * of 0 is an address error.
   */
  lemma CmdSaveStoresLength(g: Guest, address: int)
    requires GuestOk(g) && NameTerminated(g.mem, address + 4)
    ensures var start := PeekWord(g.mem, address);
      var length := PeekWord(g.mem, address + 2);
      var name := PayloadName(g.mem, address + 4);
      var (status, g') := CmdSave(g, address);
      (length == 0 ==> status == AddressError && g'.sd == g.sd)
      && (status == Ready ==>
            length > 0 && !Exists(g.sd, name) && Exists(g'.sd, name)
            && g'.sd.files[name] == SavedBytes(g.mem, start, start + length - 1)
            && |g'.sd.files[name]| == length)
  {
  }

  /** `cmdCatOpen`: start reading the card's listing from its first entry. */
  function CmdCatOpen(g: Guest): (r: (Status, Guest))
    ensures r.0 == Ready && r.1.cd == Open(g.sd.order)
  {
    (Ready, g.(cd := Open(g.sd.order)))
  }

  /**
   * `cmdCatEntry`: the next entry's size (long) and name (C string) are
   * stored at the payload; past the last entry the stream is closed and
   * the answer is `Eof`. Reading a stream that was never opened or is
   * already closed is undefined in C, hence the precondition.
   */
  function CmdCatEntry(g: Guest, address: int): (r: (Status, Guest))
    requires g.cd.Open?
    ensures r.1.sd == g.sd && r.1.bytesRead == g.bytesRead && r.1.nameBuf == g.nameBuf
    ensures r.0 == Eof <==> g.cd.rest == []
    ensures r.0 == Eof ==> r.1 == g.(cd := Closed)
    ensures r.0 != Eof ==> r.0 == Ready && r.1.cd == Open(g.cd.rest[1..])
  {
    if g.cd.rest == [] then (Eof, g.(cd := Closed))
    else
      var name := g.cd.rest[0];
      (Ready, g.(mem := PokeString(PokeLong(g.mem, address, FileSize(g.sd, name)), address + 4, name), cd := Open(g.cd.rest[1..])))
  }

  /**
   * An entry reads back from the payload: the name as a C string at
   * `address + 4` and the file's size as a little-endian long at `address`.
   */
  lemma CatEntryReadsBack(g: Guest, address: int)
    requires g.cd.Open? && g.cd.rest != []
    requires 0 !in g.cd.rest[0] && |g.cd.rest[0]| < 0x100
    ensures var name := g.cd.rest[0];
      var m := CmdCatEntry(g, address).1.mem;
      FirstZero(m, address + 4, |name| + 1) == |name|
      && CopiedBytes(m, address + 4, |name| + 1) == name + [0]
      && FromLittleEndian([Peek(m, address), Peek(m, address + 1), Peek(m, address + 2), Peek(m, address + 3)])
         == FileSize(g.sd, name) % 0x1_0000_0000
  {
    var name := g.cd.rest[0];
    var m1 := PokeLong(g.mem, address, FileSize(g.sd, name));
    var m := PokeString(m1, address + 4, name);
    StringRoundTrip(m1, address + 4, name, |name| + 1);
    LongRoundTrip(g.mem, address, FileSize(g.sd, name));
    StringKeepsBelow(m1, address, name + [0 as Byte], 0);
    StringKeepsBelow(m1, address, name + [0 as Byte], 1);
    StringKeepsBelow(m1, address, name + [0 as Byte], 2);
    StringKeepsBelow(m1, address, name + [0 as Byte], 3);
    assert address + 0 == address;
  }

  /** Bytes poked from `address + 4` on leave the four bytes below alone. */
  lemma StringKeepsBelow(m: Mem, address: int, s: seq<Byte>, k: int)
    requires |s| <= 0x100 && 0 <= k < 4
    ensures Peek(PokeAll(m, address + 4, s), address + k) == Peek(m, address + k)
  {
    var x := Addr(address + k);
    var p := (address + k) / RAM_SIZE;
    assert address + k == RAM_SIZE * p + x;
    ModUnique(x - (address + 4), -p - 1, RAM_SIZE - 4 + k);
    PokeAllAt(m, address + 4, s, x);
  }

  /** `k` successive `cmdCatEntry` requests that each find an entry. */
  function Walk(g: Guest, address: int, k: nat): (r: Guest)
    requires g.cd.Open? && k <= |g.cd.rest|
    ensures r.cd == Open(g.cd.rest[k..]) && r.sd == g.sd
    decreases k
  {
    if k == 0 then g
    else
      var h := Walk(g, address, k - 1);
      assert g.cd.rest[k - 1..][1..] == g.cd.rest[k..];
      CmdCatEntry(h, address).1
  }

  /**
   * Opening the catalogue and reading it entry by entry reports every file
   * of the listing once, in the listing's order, and then `Eof`.
   */
  lemma CatalogueInOrder(g: Guest, address: int, k: nat)
    requires k <= |g.sd.order|
    ensures var h := Walk(CmdCatOpen(g).1, address, k);
      var (status, h') := CmdCatEntry(h, address);
      (k < |g.sd.order| ==> status == Ready && h.cd.rest[0] == g.sd.order[k])
      && (k == |g.sd.order| ==> status == Eof && h'.cd == Closed)
  {
  }

  /** Request codes with a handler. */
  const REQ_SOUND: Byte := 0x01
  const REQ_LOAD: Byte := 0x02
  const REQ_SAVE: Byte := 0x03
  const REQ_DELETE: Byte := 0x04
  const REQ_CAT_OPEN: Byte := 0x05
  const REQ_CAT_ENTRY: Byte := 0x06
  const REQ_RESET: Byte := 0x7F

  /** `cmdDelFile`: the payload is the name alone. */
  function CmdDelFile(g: Guest, address: int): (r: (Status, Guest))
    requires GuestOk(g) && NameTerminated(g.mem, address)
    ensures GuestOk(r.1) && r.1.mem == g.mem && r.1.cd == g.cd && r.1.bytesRead == g.bytesRead
    ensures (r.0, r.1.sd) == DelFile(g.sd, PayloadName(g.mem, address))
  {
    var (status, sd) := DelFile(g.sd, PayloadName(g.mem, address));
    (status, g.(nameBuf := NameBuffer(g.mem, address, g.nameBuf), sd := sd))
  }

  /** The inputs for which every handler the request reaches is defined. */
  predicate Defined(g: Guest)
  {
    var flag := Peek(g.mem, INBOX_FLAG);
    var address := PeekWord(g.mem, INBOX_DATA);
    ((flag == REQ_LOAD || flag == REQ_SAVE) ==> NameTerminated(g.mem, address + 4))
    && (flag == REQ_DELETE ==> NameTerminated(g.mem, address))
    && (flag == REQ_CAT_ENTRY ==> g.cd.Open?)
  }

  /**
   * The `switch` of `messageHandler`. Sound (code 1) is switched off and
   * codes without a case do nothing; both leave the answer at 0, which is
   * what `Ready` answers.
   */
  function Dispatch(g: Guest, flag: Byte): (r: (Status, Guest))
    requires GuestOk(g) && Defined(g) && Peek(g.mem, INBOX_FLAG) == flag
    ensures GuestOk(r.1)
  {
    var address := PeekWord(g.mem, INBOX_DATA);
    if flag == REQ_LOAD then CmdLoad(g, address)
    else if flag == REQ_SAVE then CmdSave(g, address)
    else if flag == REQ_DELETE then CmdDelFile(g, address)
    else if flag == REQ_CAT_OPEN then CmdCatOpen(g)
    else if flag == REQ_CAT_ENTRY then CmdCatEntry(g, address)
    else (Ready, g)
  }

  /** The inbox answer: 0 for `Ready`, otherwise the status code plus 0x80. */
  function Reply(status: Status): (b: Byte)
    ensures b == 0 <==> status == Ready
    ensures b != 0 ==> 0x80 <= b < 0x80 + 12
    ensures b != 0 ==> Code(status) == b - 0x80
  {
    if status == Ready then 0 else Code(status) + 0x80
  }

  datatype Outcome = Handled(g: Guest) | SystemReset

  /**
   * `messageHandler`: nothing happens unless the guest runs and the inbox
   * flag holds a request code (1..0x7F); 0x7F resets the whole system;
   * any other request is served and answered in the inbox flag.
   */
  function Handle(g: Guest, running: bool): (r: Outcome)
    requires GuestOk(g) && (running ==> Defined(g))
    ensures r.Handled? ==> GuestOk(r.g)
    ensures r == SystemReset <==> running && Peek(g.mem, INBOX_FLAG) == REQ_RESET
    ensures running && r.Handled? ==> Peek(r.g.mem, INBOX_FLAG) == 0 || Peek(r.g.mem, INBOX_FLAG) >= 0x80
  {
    var flag := Peek(g.mem, INBOX_FLAG);
    if !running || !(0 < flag < 0x80) then Handled(g)
    else if flag == REQ_RESET then SystemReset
    else
      var (status, h) := Dispatch(g, flag);
      Handled(h.(mem := Poke(h.mem, INBOX_FLAG, Reply(status))))
  }

  /**
   * The handler is idle, changing nothing, when the guest is stopped or the
   * inbox flag holds 0 or an answer (0x80 and up).
   */
  lemma HandleIdle(g: Guest, running: bool)
    requires GuestOk(g) && Defined(g)
    requires !running || Peek(g.mem, INBOX_FLAG) == 0 || Peek(g.mem, INBOX_FLAG) >= 0x80
    ensures Handle(g, running) == Handled(g)
  {
  }

  /**
   * Every request is answered exactly once: after an answer, the handler
   * is idle until the guest posts a new request.
   */
  lemma AnsweredOnce(g: Guest, running: bool)
    requires GuestOk(g) && Defined(g) && Handle(g, running).Handled?
    ensures Defined(Handle(g, running).g)
    ensures Handle(Handle(g, running).g, running) == Handle(g, running)
  {
    var h := Handle(g, running).g;
    if running {
      assert Peek(h.mem, INBOX_FLAG) == 0 || Peek(h.mem, INBOX_FLAG) >= 0x80;
    }
    HandleIdle(h, running);
  }

  /**
   * A code without a handler, or the switched-off sound request, is
   * answered with 0 and changes nothing else.
   */
  lemma UnservedCodes(g: Guest)
    requires GuestOk(g) && Defined(g)
    requires var f := Peek(g.mem, INBOX_FLAG); f == REQ_SOUND || REQ_CAT_ENTRY < f < REQ_RESET
    ensures Handle(g, true) == Handled(g.(mem := Poke(g.mem, INBOX_FLAG, 0)))
  {
  }

  /**
   * A load request is answered with 0 exactly when the load succeeded, and
   * the payload's count slot then holds the new `bytesRead` (see
   * `CmdLoadAnswer`), unless that slot overlaps the inbox flag.
   */
  lemma LoadRequestAnswer(g: Guest)
    requires GuestOk(g) && Defined(g) && Peek(g.mem, INBOX_FLAG) == REQ_LOAD
    ensures var address := PeekWord(g.mem, INBOX_DATA);
      var (status, c) := CmdLoad(g, address);
      var h := Handle(g, true).g;
      (Peek(h.mem, INBOX_FLAG) == 0 <==> status == Ready)
      && h.bytesRead == c.bytesRead
      && (address + 2 != INBOX_FLAG && address + 3 != INBOX_FLAG ==> PeekWord(h.mem, address + 2) == c.bytesRead)
  {
    var address := PeekWord(g.mem, INBOX_DATA);
    var (status, c) := CmdLoad(g, address);
    CmdLoadAnswer(g, address);
    LoadServed(g);
    if address + 2 != INBOX_FLAG && address + 3 != INBOX_FLAG {
      WordClearOfFlag(address);
      PokeKeepsWord(c.mem, INBOX_FLAG, Reply(status), address + 2);
    }
  }

  /** A load request is served by `CmdLoad`, and the flag then holds its reply. */
  lemma LoadServed(g: Guest)
    requires GuestOk(g) && Defined(g) && Peek(g.mem, INBOX_FLAG) == REQ_LOAD
    ensures var (status, c) := CmdLoad(g, PeekWord(g.mem, INBOX_DATA));
      Handle(g, true) == Handled(c.(mem := Poke(c.mem, INBOX_FLAG, Reply(status))))
  {
    assert Dispatch(g, REQ_LOAD) == CmdLoad(g, PeekWord(g.mem, INBOX_DATA));
  }

  lemma WordClearOfFlag(address: int)
    requires 0 <= address < RAM_SIZE
    requires address + 2 != INBOX_FLAG && address + 3 != INBOX_FLAG
    ensures Addr(address + 2) != INBOX_FLAG && Addr(address + 3) != INBOX_FLAG
  {
  }

  /** A poke outside a word leaves the word alone. */
  lemma PokeKeepsWord(m: Mem, a: int, v: Byte, w: int)
    requires 0 <= a < RAM_SIZE && Addr(w) != a && Addr(w + 1) != a
    ensures PeekWord(Poke(m, a, v), w) == PeekWord(m, w)
  {
  }

  // ---------------------------------------------------------------- outbox

  /**
   * A key for the running guest: the key's byte goes to the outbox data and
   * the outbox flag is set to 1, whether or not the guest has taken the
   * previous key.
   */
  function DeliverKey(m: Mem, key: int): (r: Mem)
    ensures r[OUTBOX_DATA] == Low(key) && r[OUTBOX_FLAG] == 1
    ensures forall x :: 0 <= x < RAM_SIZE && x != OUTBOX_DATA && x != OUTBOX_FLAG ==> r[x] == m[x]
  {
    Poke(Poke(m, OUTBOX_DATA, Low(key)), OUTBOX_FLAG, 1)
  }

  /** An undelivered key is overwritten by the next one. */
  lemma LaterKeyOverwrites(m: Mem, k1: int, k2: int)
    ensures DeliverKey(DeliverKey(m, k1), k2) == DeliverKey(m, k2)
  {
  }
}
