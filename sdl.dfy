/**
 * The desktop host built on SDL: the frame buffer fill, the 4:3 output
 * rectangle, the key queue the CPU thread reads and the translation of SDL
 * events into the key codes the firmware understands.
 */
module SdlHost {
  import opened Bus
  import opened Raster

  /** The RGB palette, entry by entry. */
  const CERB_COLOR: seq<seq<Byte>> := [
    [0, 255, 0], [255, 0, 0], [0, 0, 255], [255, 255, 0],
    [0, 255, 255], [255, 0, 255], [0, 0, 0], [255, 255, 255]]

  /** Bytes in the 320x240 RGB24 frame buffer. */
  const FRAME_BYTES := WIDTH * HEIGHT * 3

  /** Byte `i` of the frame: colour component `i % 3` of picture pixel `i / 3`. */
  function FrameByte(m: Mem, i: int): Byte
    requires 0 <= i < FRAME_BYTES
  {
    Pixel(m, CERB_COLOR, i / (WIDTH * 3), (i / 3) % WIDTH)[i % 3]
  }

  /** Byte `3 * k + c` after the start of a tile's eight pixels is component c of pixel k. */
  lemma FrameCell(m: Mem, y: int, col: int, k: int, c: int, tile: Byte, dat: Byte)
    requires 0 <= y < HEIGHT && 0 <= col < 40 && 0 <= k < 8 && 0 <= c < 3
    requires tile == m[TILE_MAP + (y / 8) * 40 + col]
    requires dat == m[CHAR_TABLE + tile as int * 8 + y % 8]
    ensures FrameByte(m, y * WIDTH * 3 + col * 24 + 3 * k + c)
      == Shade(dat, k, CERB_COLOR[Foreground(tile)], CERB_COLOR[BACKGROUND])[c]
  {
    var x := col * 8 + k;
    var q := y * WIDTH + x;
    var i := y * WIDTH * 3 + col * 24 + 3 * k + c;
    assert i == q * 3 + c;
    DivMod3(q, c);
    DivMod320(y, x);
    DivMod960(y, x * 3 + c);
    CellColumn(col, k);
  }

  /** Dividing `q * 3 + r` by 3 gives back `q` and `r`. */
  lemma DivMod3(q: int, r: int)
    requires 0 <= r < 3
    ensures (q * 3 + r) / 3 == q && (q * 3 + r) % 3 == r
  {
  }

  /** Dividing `q * 320 + r` by 320 gives back `q` and `r`. */
  lemma DivMod320(q: int, r: int)
    requires 0 <= r < 320
    ensures (q * 320 + r) / 320 == q && (q * 320 + r) % 320 == r
  {
  }

  /** Dividing `q * 960 + r` by 960 gives back `q` and `r`. */
  lemma DivMod960(q: int, r: int)
    requires 0 <= r < 960
    ensures (q * 960 + r) / 960 == q && (q * 960 + r) % 960 == r
  {
  }

  /** The pixel loop of `draw_screen`: eight pixels, three bytes each, from `x0` on. */
  method DrawTileRgb(buf: array<Byte>, x0: int, tileDat: Byte, fgcolor: seq<Byte>, bgcolor: seq<Byte>)
    requires 0 <= x0 && x0 + 24 <= buf.Length && |fgcolor| == 3 && |bgcolor| == 3
    modifies buf
    ensures forall i :: 0 <= i < buf.Length && !(x0 <= i < x0 + 24) ==> buf[i] == old(buf[i])
    ensures forall i :: x0 <= i < x0 + 24 ==> buf[i] == Shade(tileDat, (i - x0) / 3, fgcolor, bgcolor)[(i - x0) % 3]
  {
    for p := 0 to 8
      invariant forall i :: 0 <= i < buf.Length && !(x0 <= i < x0 + 24) ==> buf[i] == old(buf[i])
      invariant forall i :: x0 <= i < x0 + 3 * p ==> buf[i] == Shade(tileDat, (i - x0) / 3, fgcolor, bgcolor)[(i - x0) % 3]
    {
      var color := Ink(tileDat, p, fgcolor, bgcolor);
      var at := x0 + 3 * p;
      buf[at] := color[0];
      buf[at + 1] := color[1];
      buf[at + 2] := color[2];
      forall i | at <= i < at + 3
        ensures buf[i] == Shade(tileDat, (i - x0) / 3, fgcolor, bgcolor)[(i - x0) % 3]
      {
        assert (i - x0) / 3 == p && (i - x0) % 3 == i - at;
      }
    }
  }

  /**
   * `draw_screen`'s fill of the frame buffer: every byte is set from the
   * picture, including the first, which the clear and the marker written
   * before the loops leave to be overwritten. The buffer depends on nothing
   * but memory.
   */
  method DrawScreen(ram: array<Byte>, buf: array<Byte>)
    requires ram.Length == RAM_SIZE && buf.Length == FRAME_BYTES && ram != buf
    modifies buf
    ensures forall i :: 0 <= i < FRAME_BYTES ==> buf[i] == FrameByte(ram[..], i)
  {
    ghost var m := ram[..];
    ghost var want := seq(FRAME_BYTES, i requires 0 <= i < FRAME_BYTES => FrameByte(m, i));
    for i := 0 to buf.Length {
      buf[i] := 0;
    }
    buf[0] := 0xff;
    var bgcolor := CERB_COLOR[BACKGROUND];
    for scanLine := 0 to HEIGHT
      invariant forall i :: 0 <= i < scanLine * WIDTH * 3 ==> buf[i] == want[i]
    {
      for col := 0 to 40
        invariant forall i :: 0 <= i < scanLine * WIDTH * 3 + col * 24 ==> buf[i] == want[i]
      {
        var tileNum := ram[TILE_MAP + (scanLine / 8) * 40 + col];
        var tileLine := scanLine % 8;
        var tileDat := ram[CHAR_TABLE + tileNum as int * 8 + tileLine];
        var fgcolor := CERB_COLOR[WHITE];
        if 8 <= tileNum < 32 {
          fgcolor := CERB_COLOR[(tileNum - 8) % 6];
        }
        assert fgcolor == CERB_COLOR[Foreground(tileNum)];
        var x0 := scanLine * WIDTH * 3 + col * 24;
        DrawTileRgb(buf, x0, tileDat, fgcolor, bgcolor);
        forall i | x0 <= i < x0 + 24
          ensures buf[i] == want[i]
        {
          var k, c := (i - x0) / 3, (i - x0) % 3;
          assert i == x0 + 3 * k + c;
          FrameCell(m, scanLine, col, k, c, tileNum, tileDat);
        }
      }
    }
  }

  // ---------------------------------------------------------------
  // The output rectangle

  datatype Rect = Rect(x: int, y: int, w: int, h: int)

  /**
   * `calc_4_3_output_rect` for a `wx` by `wy` window: the largest 4:3
   * rectangle (up to integer division) inside the window, centred on the
   * axis it does not fill. The products `4 * wy` and `3 * wx` stay within
   * a C int for the sizes the precondition allows.
   */
  function OutputRect(wx: int, wy: int): (r: Rect)
    requires 0 <= wx <= 0x1FFF_FFFF && 0 <= wy <= 0x1FFF_FFFF
    ensures 0 <= r.x && r.x + r.w <= wx && 0 <= r.y && r.y + r.h <= wy
    ensures r.w == wx || r.h == wy
    ensures 0 <= (wx - r.w) - 2 * r.x <= 1 && 0 <= (wy - r.h) - 2 * r.y <= 1
    ensures -4 < 3 * r.w - 4 * r.h < 4
  {
    if wx > 4 * wy / 3 then Rect((wx - 4 * wy / 3) / 2, 0, 4 * wy / 3, wy)
    else Rect(0, (wy - 3 * wx / 4) / 2, wx, 3 * wx / 4)
  }

  /** The rectangle is full height exactly when the window is wider than 4:3. */
  lemma OutputRectFullHeight(wx: int, wy: int)
    requires 0 <= wx <= 0x1FFF_FFFF && 0 <= wy <= 0x1FFF_FFFF
    ensures var r := OutputRect(wx, wy);
      (wx > 4 * wy / 3 ==> r.h == wy && r.y == 0)
      && (wx <= 4 * wy / 3 ==> r.w == wx && r.x == 0)
  {
  }

  // ---------------------------------------------------------------
  // Keys

  /** The keys SDL reports that the host translates; everything else is `Other`. */
  datatype SdlKey = Escape | Backspace | Left | Right | Up | Down | F12 | Return | Other(sym: int)

  /** What a key-down event puts on the queue. */
  function KeyCodes(k: SdlKey): (codes: seq<Byte>)
    ensures |codes| <= 1
    ensures codes == [] <==> k.Other?
    ensures codes != [] ==> codes[0] in {1, 8, 10, 11, 13, 21, 27}
  {
    match k
    case Escape => [27]
    case Backspace => [8]
    case Left => [8]
    case Right => [21]
    case Up => [11]
    case Down => [10]
    case F12 => [1]
    case Return => [13]
    case Other(_) => []
  }

  /** Distinct keys give distinct codes, except that Backspace and Left share one. */
  lemma KeyCodesDistinct(a: SdlKey, b: SdlKey)
    requires !a.Other? && !b.Other? && a != b
    ensures KeyCodes(a) == KeyCodes(b) <==> {a, b} == {Backspace, Left}
  {
  }

  /** The events the main thread's poll loop distinguishes. */
  datatype SdlEvent = TextInput(text: seq<Byte>) | KeyDown(key: SdlKey) | Quit | Ignored

  /**
   * One pass of the poll loop over pending `events`: how many it takes, whether
   * it met a quit request, and the keys it queues. The pass ends after the
   * first text input event and at the first quit event.
   */
  function Poll(events: seq<SdlEvent>): (r: (nat, bool, seq<Byte>))
    ensures r.0 <= |events|
  {
    if events == [] then (0, false, [])
    else match events[0]
      case TextInput(text) => (1, false, text)
      case Quit => (1, true, [])
      case KeyDown(k) => var r := Poll(events[1..]); (r.0 + 1, r.1, KeyCodes(k) + r.2)
      case Ignored => var r := Poll(events[1..]); (r.0 + 1, r.1, r.2)
  }

  /**
   * Where a pass ends: after the first text input or quit event, or at the
   * end of the events when there is neither; it reports a quit exactly
   * when it ended on a quit event.
   */
  lemma {:induction false} PollEnds(events: seq<SdlEvent>)
    ensures var r := Poll(events);
      (r.0 < |events| ==> r.0 > 0 && (events[r.0 - 1].TextInput? || events[r.0 - 1].Quit?))
      && (r.1 <==> r.0 > 0 && events[r.0 - 1].Quit?)
      && (forall i :: 0 <= i < r.0 - 1 ==> !events[i].TextInput? && !events[i].Quit?)
  {
    if events != [] && (events[0].KeyDown? || events[0].Ignored?) {
      var rest := events[1..];
      PollEnds(rest);
      var n := Poll(rest);
      assert forall i :: 1 <= i < n.0 + 1 ==> events[i] == rest[i - 1];
    }
  }

  /** One event of the pass, taken from the front of what remains. */
  lemma PollStep(events: seq<SdlEvent>, i: int)
    requires 0 <= i < |events|
    ensures var r, n := Poll(events[i..]), Poll(events[i + 1..]);
      (events[i].TextInput? ==> r.0 == 1 && !r.1 && r.2 == events[i].text)
      && (events[i].Quit? ==> r.0 == 1 && r.1 && r.2 == [])
      && (events[i].KeyDown? ==> r.0 == n.0 + 1 && r.1 == n.1 && r.2 == KeyCodes(events[i].key) + n.2)
      && (events[i].Ignored? ==> r.0 == n.0 + 1 && r.1 == n.1 && r.2 == n.2)
  {
    assert events[i..][1..] == events[i + 1..];
  }

  /**
   * After `taken` events that neither ended the pass, the pass over all
   * events is the `queued` codes followed by the pass over the rest.
   */
  ghost predicate PolledSoFar(events: seq<SdlEvent>, taken: nat, queued: seq<Byte>)
  {
    taken <= |events|
    && Poll(events).0 == taken + Poll(events[taken..]).0
    && Poll(events).1 == Poll(events[taken..]).1
    && Poll(events).2 == queued + Poll(events[taken..]).2
  }

  /** A key-down or ignored event is passed over, queueing its codes. */
  lemma PollAdvance(events: seq<SdlEvent>, taken: nat, queued: seq<Byte>)
    requires PolledSoFar(events, taken, queued) && taken < |events|
    requires events[taken].KeyDown? || events[taken].Ignored?
    ensures PolledSoFar(events, taken + 1, queued + (if events[taken].KeyDown? then KeyCodes(events[taken].key) else []))
  {
    PollStep(events, taken);
    var next := Poll(events[taken + 1..]);
    if events[taken].KeyDown? {
      var codes := KeyCodes(events[taken].key);
      assert queued + (codes + next.2) == (queued + codes) + next.2;
    } else {
      assert queued + [] == queued;
    }
  }

  /** A text input or quit event ends the pass. */
  lemma PollFinish(events: seq<SdlEvent>, taken: nat, queued: seq<Byte>)
    requires PolledSoFar(events, taken, queued) && taken < |events|
    requires events[taken].TextInput? || events[taken].Quit?
    ensures Poll(events).0 == taken + 1
    ensures Poll(events).1 == events[taken].Quit?
    ensures Poll(events).2 == queued + (if events[taken].TextInput? then events[taken].text else [])
  {
    PollStep(events, taken);
    if events[taken].Quit? {
      assert queued + [] == queued;
    }
  }

  /** Key-down events that ask for nothing queue nothing. */
  lemma {:induction false} OtherKeysQueueNothing(events: seq<SdlEvent>)
    requires forall i :: 0 <= i < |events| ==> events[i].KeyDown? && events[i].key.Other?
    ensures Poll(events).0 == |events| && !Poll(events).1 && Poll(events).2 == []
  {
    if events != [] {
      assert events[0].KeyDown? && KeyCodes(events[0].key) == [];
      OtherKeysQueueNothing(events[1..]);
      assert KeyCodes(events[0].key) + Poll(events[1..]).2 == [];
    }
  }

  /** The queue of keys shared with the CPU thread. */
  class KeyQueue {
    var keys: seq<Byte>

    constructor()
      ensures keys == []
    {
      keys := [];
    }

    /**
     * The poll loop: key-down events queue their codes, a text input event
     * queues its bytes and ends the pass, a quit event ends it too.
     */
    method PollEvents(events: seq<SdlEvent>) returns (taken: nat, quit: bool)
      modifies this
      ensures (taken, quit) == (Poll(events).0, Poll(events).1)
      ensures keys == old(keys) + Poll(events).2
    {
      taken, quit := 0, false;
      ghost var queued: seq<Byte> := [];
      assert events[0..] == events;
      assert Poll(events).2 == queued + Poll(events).2;
      while taken < |events|
        invariant !quit
        invariant keys == old(keys) + queued
        invariant PolledSoFar(events, taken, queued)
      {
        match events[taken] {
          case TextInput(text) =>
            PollFinish(events, taken, queued);
            keys := keys + text;
            taken := taken + 1;
            return;
          case KeyDown(k) =>
            PollAdvance(events, taken, queued);
            keys := keys + KeyCodes(k);
            queued := queued + KeyCodes(k);
          case Quit =>
            PollFinish(events, taken, queued);
            quit := true;
            taken := taken + 1;
            return;
          case Ignored =>
            PollAdvance(events, taken, queued);
        }
        taken := taken + 1;
      }
      assert events[taken..] == [];
    }

    /** `readKey`: 0 on an empty queue, otherwise the oldest key, which leaves the queue. */
    method ReadKey() returns (key: int)
      modifies this
      ensures old(keys) == [] ==> key == 0 && keys == []
      ensures old(keys) != [] ==> key == old(keys)[0] && keys == old(keys)[1..]
    {
      if keys == [] {
        key := 0;
      } else {
        key := keys[0];
        keys := keys[1..];
      }
    }
  }
}
