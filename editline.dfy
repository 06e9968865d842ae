/**
 * The monitor's 38-byte edit line: a '>' prompt in byte 0, the typed text,
 * a 0 byte marking the cursor, and spaces up to the end. The key actions of
 * the monitor's edit mode and the `getNextWord` tokenizer are functions on
 * the line's contents.
 */
module EditLine {
  import opened Bus

  const LINE_LEN: int := 38
  /** The right-most cursor position. */
  const LAST: int := 37
  const PROMPT: Byte := 62
  const BLANK: Byte := 32
  const COMMA: Byte := 44

  type Line = s: seq<Byte> | |s| == LINE_LEN witness seq(LINE_LEN, _ => 0)

  /**
   * The shape the monitor keeps while no guest program runs: the prompt,
   * non-zero typed bytes in 1..pos-1, the cursor's 0 at `pos`, and blanks
   * after it.
   */
  predicate WellFormed(line: Line, pos: int)
  {
    1 <= pos <= LAST && line[0] == PROMPT && line[pos] == 0
    && (forall k :: 1 <= k < pos ==> line[k] != 0)
    && (forall k :: pos < k < LINE_LEN ==> line[k] == BLANK)
  }

  /** What has been typed: the bytes between the prompt and the cursor. */
  function Text(line: Line, pos: int): seq<Byte>
    requires 1 <= pos <= LAST
  {
    line[1..pos]
  }

  /** `clearEditLine`: the prompt, the cursor right after it, blanks to the end. */
  function Cleared(): (r: (Line, int))
    ensures WellFormed(r.0, r.1) && Text(r.0, r.1) == []
  {
    ([PROMPT, 0] + seq(36, _ => BLANK), 1)
  }

  /** A well-formed line is determined by its text. */
  lemma {:induction false} TextDetermines(l1: Line, p1: int, l2: Line, p2: int)
    requires WellFormed(l1, p1) && WellFormed(l2, p2) && Text(l1, p1) == Text(l2, p2)
    ensures l1 == l2 && p1 == p2
  {
    assert |Text(l1, p1)| == p1 - 1 && |Text(l2, p2)| == p2 - 1;
    forall k | 0 <= k < LINE_LEN
      ensures l1[k] == l2[k]
    {
      if 1 <= k < p1 {
        assert l1[k] == Text(l1, p1)[k - 1];
      }
    }
  }

  /**
   * Typing byte `c` (the default branch of the key switch): `c` goes under
   * the cursor, the cursor moves right unless it is already in the last
   * position, and the cursor's 0 is written at its new position.
   */
  function TypeChar(line: Line, pos: int, c: Byte): (Line, int)
    requires 0 <= pos <= LAST
  {
    var l := line[pos := c];
    var p := if pos < LAST then pos + 1 else pos;
    (l[p := 0], p)
  }

  /**
   * Typing appends to the text, except in the last position where the typed
   * byte is overwritten by the cursor and lost; the line stays well formed.
   */
  lemma TypeCharAppends(line: Line, pos: int, c: Byte)
    requires WellFormed(line, pos) && c != 0
    ensures var (l, p) := TypeChar(line, pos, c);
      WellFormed(l, p)
      && Text(l, p) == if pos < LAST then Text(line, pos) + [c] else Text(line, pos)
  {
    var (l, p) := TypeChar(line, pos, c);
    if pos < LAST {
      assert Text(l, p) == Text(line, pos) + [c];
    } else {
      assert Text(l, p) == Text(line, pos);
    }
  }

  /**
   * Delete or Left: the cursor cell becomes a blank, the cursor moves left
   * unless it is at position 1, and its 0 is written at the new position.
   */
  function DeleteChar(line: Line, pos: int): (Line, int)
    requires 0 <= pos <= LAST
  {
    var l := line[pos := BLANK];
    var p := if pos > 1 then pos - 1 else pos;
    (l[p := 0], p)
  }

  /** Deleting drops the last typed byte, if any, and never moves the cursor onto the prompt. */
  lemma DeleteCharDrops(line: Line, pos: int)
    requires WellFormed(line, pos)
    ensures var (l, p) := DeleteChar(line, pos);
      WellFormed(l, p)
      && Text(l, p) == if pos > 1 then Text(line, pos)[..pos - 2] else []
  {
    var (l, p) := DeleteChar(line, pos);
    if pos > 1 {
      assert Text(l, p) == Text(line, pos)[..pos - 2];
    }
  }

  /** Index of the first 0 at or after `i`. */
  function ZeroFrom(line: Line, i: int): (p: int)
    requires 0 <= i < LINE_LEN && exists k :: i <= k < LINE_LEN && line[k] == 0
    ensures i <= p < LINE_LEN && line[p] == 0
    ensures forall k :: i <= k < p ==> line[k] != 0
    decreases LINE_LEN - i
  {
    if line[i] == 0 then i
    else
      assert exists k :: i + 1 <= k < LINE_LEN && line[k] == 0;
      ZeroFrom(line, i + 1)
  }

  /**
   * Up: the previous line comes back and the cursor is put on its first 0
   * (the scan in the source would run off the line if there were none).
   */
  function Recall(previous: Line): (r: (Line, int))
    requires 0 in previous
  {
    assert previous[0] == 0 || exists k :: 0 <= k < LINE_LEN && previous[k] == 0;
    (previous, ZeroFrom(previous, 0))
  }

  /** Recalling a line stored from a well-formed edit line restores it exactly, cursor included. */
  lemma RecallRestores(previous: Line, pos: int)
    requires WellFormed(previous, pos)
    ensures 0 in previous && Recall(previous) == (previous, pos)
  {
    assert previous[pos] == 0;
  }

  /**
   * Up before any command has been entered: `previousEditLine` is a zeroed
   * global, so the cursor lands on position 0, the prompt is gone, and a
   * byte typed next replaces the prompt instead of starting the text.
   */
  lemma RecallBeforeHistory(c: Byte)
    requires c != 0
    ensures 0 in Zeroed()
    ensures var (l, p) := Recall(Zeroed());
      p == 0 && l[0] != PROMPT
      && var (l2, p2) := TypeChar(l, p, c);
         l2[0] == c && p2 == 1 && Text(l2, p2) == [] && !WellFormed(l2, p2)
  {
    var z := Zeroed();
    assert z[0] == 0 && z[2] == 0;
    assert ZeroFrom(z, 0) == 0;
    var (l, p) := Recall(z);
    assert p == 0 && l == z;
    var (l2, p2) := TypeChar(l, p, c);
    assert l2 == z[0 := c][1 := 0];
    assert l2[2] == 0;
  }

  /** The edit-line history as C leaves it before its first use: all zeros. */
  function Zeroed(): (l: Line)
    ensures forall k :: 0 <= k < LINE_LEN ==> l[k] == 0
  {
    seq(LINE_LEN, _ => 0)
  }

  /** With the history started as a cleared line, Up before any command gives an empty prompt line. */
  lemma RecallClearedHistory()
    ensures 0 in Cleared().0 && Recall(Cleared().0) == Cleared()
  {
    RecallRestores(Cleared().0, 1);
  }

  // ---------------------------------------------------------------- getNextWord

  predicate IsSeparator(b: Byte)
  {
    b == BLANK || b == COMMA
  }

  /** A byte that continues a word: neither a separator nor the cursor. */
  predicate InWord(b: Byte)
  {
    !IsSeparator(b) && b != 0
  }

  /** The first index at or after `i` that is not a separator; 38 when the line runs out. */
  function SkipSeparators(line: Line, i: int): (r: int)
    requires 0 <= i <= LINE_LEN
    ensures i <= r <= LINE_LEN
    ensures forall k :: i <= k < r ==> IsSeparator(line[k])
    ensures r < LINE_LEN ==> !IsSeparator(line[r])
    decreases LINE_LEN - i
  {
    if i == LINE_LEN || !IsSeparator(line[i]) then i else SkipSeparators(line, i + 1)
  }

  /** The first index at or after `j` that does not continue a word; 38 when the line runs out. */
  function WordEnd(line: Line, j: int): (r: int)
    requires 0 <= j <= LINE_LEN
    ensures j <= r <= LINE_LEN
    ensures forall k :: j <= k < r ==> InWord(line[k])
    ensures r < LINE_LEN ==> !InWord(line[r])
    decreases LINE_LEN - j
  {
    if j == LINE_LEN || !InWord(line[j]) then j else WordEnd(line, j + 1)
  }

  /** One `getNextWord` call as written: a read past byte 37 is `OutOfBounds`. */
  datatype Scan = OutOfBounds | Word(word: seq<Byte>, next: int)

  /**
   * `getNextWord` as written: skip separators from `start`, then take the
   * bytes up to the next separator or 0, starting the end search one byte
   * past the first byte even when that byte is the cursor's 0. The word is
   * returned as a C string, so a word whose first byte is 0 is empty, and
   * the next call starts where this one's end search stopped.
   */
  function NextWordAsWritten(line: Line, start: int): Scan
    requires 0 <= start < LINE_LEN
  {
    var i := SkipSeparators(line, start);
    if i == LINE_LEN then OutOfBounds
    else
      var j := WordEnd(line, i + 1);
      if j == LINE_LEN then OutOfBounds
      else Word(if line[i] == 0 then [] else line[i..j], j)
  }

  /**
   * Once the words are used up the tokenizer runs off the line: on a
   * well-formed line the call that starts at the cursor answers "" but moves
   * past the cursor, and the call after it reads beyond byte 37 (and a
   * cursor in the last position already does so on the first of the two).
   */
  lemma OverrunAfterLastWord(line: Line, pos: int)
    requires WellFormed(line, pos)
    ensures pos < LAST ==>
              (NextWordAsWritten(line, pos) == Word([], pos + 1)
               && NextWordAsWritten(line, pos + 1) == OutOfBounds)
    ensures pos == LAST ==> NextWordAsWritten(line, pos) == OutOfBounds
  {
    assert SkipSeparators(line, pos) == pos;
    if pos < LAST {
      assert !InWord(line[pos + 1]);
    }
  }

  /** The line the monitor holds after the user types "load". */
  function LoadLine(): (r: (Line, int))
    ensures WellFormed(r.0, r.1) && Text(r.0, r.1) == [0x6C, 0x6F, 0x61, 0x64]
  {
    ([PROMPT, 0x6C, 0x6F, 0x61, 0x64, 0] + seq(32, _ => BLANK), 5)
  }

  /**
   * The one-word command "load" reads past the edit line: `enter` asks for
   * the command word and two operands, and the third call overruns.
   */
  lemma LoadAloneOverruns()
    ensures var (line, pos) := LoadLine();
      NextWordAsWritten(line, 1) == Word(Text(line, pos), 5)
      && NextWordAsWritten(line, 5) == Word([], 6)
      && NextWordAsWritten(line, 6) == OutOfBounds
  {
    var (line, pos) := LoadLine();
    assert SkipSeparators(line, 1) == 1;
    assert WordEnd(line, 2) == 5 by {
      assert InWord(line[2]) && InWord(line[3]) && InWord(line[4]) && !InWord(line[5]);
    }
    OverrunAfterLastWord(line, pos);
  }

  /**
   * `getNextWord` as evidently intended: at the end of the text it answers
   * "" and stays on the cursor, so any number of further calls are safe.
   * The result is the word and where the next call starts; the word is a
   * maximal run of word bytes that only separators precede.
   */
  function NextWord(line: Line, start: int): (r: (seq<Byte>, int))
    requires 0 <= start <= LINE_LEN
    ensures start <= r.1 <= LINE_LEN
    ensures exists i :: start <= i <= r.1 && r.0 == line[i..r.1]
                      && forall k :: start <= k < i ==> IsSeparator(line[k])
    ensures forall b :: b in r.0 ==> InWord(b)
    ensures r.0 != [] ==> r.1 == LINE_LEN || !InWord(line[r.1])
  {
    var i := SkipSeparators(line, start);
    if i == LINE_LEN || line[i] == 0 then
      assert line[i..i] == [];
      ([], i)
    else
      var j := WordEnd(line, i + 1);
      assert forall b :: b in line[i..j] ==> InWord(b) by {
        forall b | b in line[i..j] ensures InWord(b) {
          var k :| 0 <= k < j - i && line[i..j][k] == b;
          assert b == line[i + k];
        }
      }
      (line[i..j], j)
  }

  /** At the end of the text the corrected tokenizer keeps answering "" from the same place. */
  lemma NextWordStaysAtEnd(line: Line, start: int)
    requires 0 <= start <= LINE_LEN && NextWord(line, start).0 == []
    ensures NextWord(line, NextWord(line, start).1) == NextWord(line, start)
  {
  }

  /**
   * On a well-formed line started inside the text the corrected tokenizer
   * never looks past the cursor, and it answers "" exactly when only
   * separators are left before the cursor.
   */
  lemma NextWordWithinText(line: Line, pos: int, start: int)
    requires WellFormed(line, pos) && 1 <= start <= pos
    ensures NextWord(line, start).1 <= pos
    ensures NextWord(line, start).0 == [] <==> forall k :: start <= k < pos ==> IsSeparator(line[k])
  {
    var i := SkipSeparators(line, start);
    assert !IsSeparator(line[pos]);
    assert i <= pos;
    if i < pos {
      assert line[i] != 0;
      var j := WordEnd(line, i + 1);
      assert !InWord(line[pos]);
      assert j <= pos;
    }
  }

  /** Where the written tokenizer returns a word, the corrected one returns the same word and position. */
  lemma NextWordAgrees(line: Line, start: int)
    requires 0 <= start < LINE_LEN
    requires NextWordAsWritten(line, start).Word? && NextWordAsWritten(line, start).word != []
    ensures NextWord(line, start) == (NextWordAsWritten(line, start).word, NextWordAsWritten(line, start).next)
  {
  }
}
