/** Reference layout of terminal output: an unbounded list of rows of which the screen shows the last ones. */
module Transcript {
  import opened Machine
  import opened Glyphs

  const BACKSPACE: byte := 8
  const LINE_FEED: byte := 10
  const CARRIAGE_RETURN: byte := 13
  const VGA_WIDTH: nat := 80

  /** All rows ever produced since the last clear, and the absolute position of the cursor. */
  datatype Log = Log(rows: seq<seq<Cell>>, row: nat, column: nat)

  function BlankRow(width: nat, color: byte): (r: seq<Cell>)
    ensures |r| == width
  {
    seq(width, _ => Cell(SPACE, color))
  }

  /** First row of the window of the given height. */
  function Top(log: Log, height: nat): nat
    requires |log.rows| >= height
  {
    |log.rows| - height
  }

  predicate LogOk(log: Log, width: nat, height: nat) {
    && 1 <= width && 1 <= height <= |log.rows|
    && (forall i | 0 <= i < |log.rows| :: |log.rows[i]| == width)
    && Top(log, height) <= log.row < |log.rows| && log.column < width
  }

  function Cleared(color: byte, width: nat, height: nat): Log {
    Log(seq(height, _ => BlankRow(width, color)), 0, 0)
  }

  function SetCell(log: Log, row: nat, column: nat, cell: Cell): Log
    requires row < |log.rows| && column < |log.rows[row]|
  {
    log.(rows := log.rows[row := log.rows[row][column := cell]])
  }

  /** The cursor moves to the start of the next row, which is added if it does not exist yet. */
  function NextRow(log: Log, color: byte, width: nat): Log {
    Log(if log.row + 1 < |log.rows| then log.rows else log.rows + [BlankRow(width, color)], log.row + 1, 0)
  }

  /** Stepping back from the first column of a row goes to column 79, whatever the width: the one output that can leave
      a screen narrower than 80 columns. */
  predicate Unsafe(log: Log, c: byte, width: nat, height: nat)
    requires LogOk(log, width, height)
  {
    c == BACKSPACE && log.column == 0 && log.row > Top(log, height) && width < VGA_WIDTH
  }

  /** One output character. */
  function Put(log: Log, c: byte, color: byte, width: nat, height: nat): Log
    requires LogOk(log, width, height) && !Unsafe(log, c, width, height)
  {
    if c == LINE_FEED then NextRow(log, color, width)
    else if c == CARRIAGE_RETURN then log.(column := 0)
    else if c == BACKSPACE then
      if log.column > 0 then
        SetCell(log, log.row, log.column - 1, Cell(SPACE, color)).(column := log.column - 1)
      else if log.row > Top(log, height) then
        SetCell(log, log.row - 1, VGA_WIDTH - 1, Cell(SPACE, color)).(row := log.row - 1, column := VGA_WIDTH - 1)
      else log
    else
      var written := SetCell(log, log.row, log.column, Cell(c, color));
      if log.column + 1 == width then NextRow(written, color, width) else written.(column := log.column + 1)
  }

  lemma PutKeepsLog(log: Log, c: byte, color: byte, width: nat, height: nat)
    requires LogOk(log, width, height) && !Unsafe(log, c, width, height)
    ensures LogOk(Put(log, c, color, width, height), width, height)
  {
  }

  /** Rows that have scrolled off the screen never change again. */
  lemma HistoryIsFrozen(log: Log, c: byte, color: byte, width: nat, height: nat)
    requires LogOk(log, width, height) && !Unsafe(log, c, width, height)
    ensures var after := Put(log, c, color, width, height);
            && |log.rows| <= |after.rows| <= |log.rows| + 1
            && after.rows[..Top(log, height)] == log.rows[..Top(log, height)]
  {
  }

  /** On wide or single-row screens every output is safe. */
  lemma NeverUnsafe(log: Log, c: byte, width: nat, height: nat)
    requires LogOk(log, width, height) && (width >= VGA_WIDTH || height == 1)
    ensures !Unsafe(log, c, width, height)
  {
  }

  function PutText(log: Log, s: seq<byte>, color: byte, width: nat, height: nat): (after: Log)
    requires LogOk(log, width, height) && (width >= VGA_WIDTH || height == 1)
    ensures LogOk(after, width, height)
    decreases |s|
  {
    if s == [] then log
    else
      PutKeepsLog(log, s[0], color, width, height);
      PutText(Put(log, s[0], color, width, height), s[1..], color, width, height)
  }

  // ---- what one character does ----

  /** Two logs have the same cells, but for one place. */
  predicate SameBut(now: Log, before: Log, row: nat, column: nat) {
    && |now.rows| == |before.rows|
    && (forall r | 0 <= r < |now.rows| :: |now.rows[r]| == |before.rows[r]|)
    && forall r, c | 0 <= r < |now.rows| && 0 <= c < |now.rows[r]| && (r != row || c != column) ::
         now.rows[r][c] == before.rows[r][c]
  }

  /** A backspace steps back one cell, over the start of a row to the last of 80 columns of the row before, and blanks
      the cell it comes to; every other cell is as before. At the home position of the screen it does nothing. */
  lemma BackspaceBlanks(log: Log, color: byte, width: nat, height: nat)
    requires LogOk(log, width, height) && !Unsafe(log, 8, width, height)
    ensures var after := Put(log, 8, color, width, height);
            if log.column == 0 && log.row == |log.rows| - height then after == log
            else
              && (after.row, after.column)
                 == (if log.column > 0 then (log.row, log.column - 1) else (log.row - 1, 79))
              && after.rows[after.row][after.column] == Cell(32, color)
              && SameBut(after, log, after.row, after.column)
  {
  }

  /** A line feed goes to the start of the next row. No cell changes, and a row that it adds is blank. */
  lemma LineFeedKeepsCells(log: Log, color: byte, width: nat, height: nat)
    requires LogOk(log, width, height)
    ensures var after := Put(log, 10, color, width, height);
            && (after.row, after.column) == (log.row + 1, 0)
            && log.rows <= after.rows && |after.rows|
               == (if log.row + 1 < |log.rows| then |log.rows| else |log.rows| + 1)
            && forall r, c | |log.rows| <= r < |after.rows| && 0 <= c < width ::
                 |after.rows[r]| == width && after.rows[r][c] == Cell(32, color)
  {
  }

  /** A carriage return goes to the start of the row and changes nothing else. */
  lemma CarriageReturnKeepsCells(log: Log, color: byte, width: nat, height: nat)
    requires LogOk(log, width, height)
    ensures var after := Put(log, 13, color, width, height);
            after.rows == log.rows && (after.row, after.column) == (log.row, 0)
  {
  }

  /** Any other character is written at the cursor, in the current colour; no other cell changes, and a row that the
      step over the right edge adds is blank. */
  lemma PlainWritesOneCell(log: Log, ch: byte, color: byte, width: nat, height: nat)
    requires LogOk(log, width, height) && ch !in {8, 10, 13}
    ensures var after := Put(log, ch, color, width, height);
            && (after.row, after.column)
               == (if log.column + 1 < width then (log.row, log.column + 1) else (log.row + 1, 0))
            && |after.rows| == (if after.row < |log.rows| then |log.rows| else |log.rows| + 1)
            && after.rows[log.row][log.column] == Cell(ch, color)
            && SameBut(after.(rows := after.rows[..|log.rows|]), log, log.row, log.column)
            && forall r, c | |log.rows| <= r < |after.rows| && 0 <= c < width ::
                 |after.rows[r]| == width && after.rows[r][c] == Cell(32, color)
  {
  }

  /** A cleared screen is blank, with the cursor at the home position. */
  lemma ClearedIsBlank(color: byte, width: nat, height: nat)
    ensures var log := Cleared(color, width, height);
            && (log.row, log.column) == (0, 0) && |log.rows| == height
            && forall r, c | 0 <= r < height && 0 <= c < width ::
                 |log.rows[r]| == width && log.rows[r][c] == Cell(32, color)
  {
  }

  /** Erasing what was just typed: a plain character and a backspace leave a blank cell in its place, the cursor where
      it was, and every other cell as it was. Only in the last column of a screen wider or narrower than 80 columns the
      backspace comes to another cell than the one the character went to. */
  lemma TypedThenErased(log: Log, ch: byte, color: byte, width: nat, height: nat)
    requires LogOk(log, width, height) && ch !in {8, 10, 13} && (log.column + 1 < width || (width == 80 && height > 1))
    ensures var typed := Put(log, ch, color, width, height);
            && LogOk(typed, width, height) && !Unsafe(typed, 8, width, height)
            && var after := Put(typed, 8, color, width, height);
            && (after.row, after.column) == (log.row, log.column)
            && after.rows[log.row][log.column] == Cell(32, color)
            && SameBut(after.(rows := after.rows[..|log.rows|]), log, log.row, log.column)
  {
    hide Put;
    PutKeepsLog(log, ch, color, width, height);
    var typed := Put(log, ch, color, width, height);
    PlainWritesOneCell(log, ch, color, width, height);
    BackspaceBlanks(typed, color, width, height);
    SameButTwice(Put(typed, 8, color, width, height), typed, log, log.row, log.column);
  }

  lemma SameButTwice(now: Log, middle: Log, before: Log, row: nat, column: nat)
    requires |before.rows| <= |middle.rows| && SameBut(now, middle, row, column)
    requires SameBut(middle.(rows := middle.rows[..|before.rows|]), before, row, column)
    ensures SameBut(now.(rows := now.rows[..|before.rows|]), before, row, column)
  {
    var cut, left := middle.(rows := middle.rows[..|before.rows|]), now.(rows := now.rows[..|before.rows|]);
    forall r | 0 <= r < |before.rows|
      ensures |left.rows[r]| == |before.rows[r]|
      ensures forall c | 0 <= c < |left.rows[r]| && (r != row || c != column) :: left.rows[r][c] == before.rows[r][c]
    {
      assert left.rows[r] == now.rows[r] && cut.rows[r] == middle.rows[r];
    }
  }

  // ---- plain text ----

  predicate Plain(c: byte) {
    c != LINE_FEED && c != CARRIAGE_RETURN && c != BACKSPACE
  }

  function PutAll(log: Log, s: seq<byte>, color: byte, width: nat, height: nat): Log
    requires LogOk(log, width, height) && forall c <- s :: Plain(c)
    decreases |s|
  {
    if s == [] then log
    else
      assert Plain(s[0]) && forall c <- s[1..] :: c in s;
      PutKeepsLog(log, s[0], color, width, height);
      PutAll(Put(log, s[0], color, width, height), s[1..], color, width, height)
  }

  /** Writing a string that ends in a character is writing the string and then the character. */
  lemma {:induction false} PutTextThen(log: Log, s: seq<byte>, c: byte, color: byte, width: nat, height: nat)
    requires LogOk(log, width, height) && (width >= VGA_WIDTH || height == 1)
    ensures var before := PutText(log, s, color, width, height);
            && LogOk(before, width, height) && !Unsafe(before, c, width, height)
            && PutText(log, s + [c], color, width, height) == Put(before, c, color, width, height)
    decreases |s|
  {
    hide Put, LogOk, Unsafe;
    if s == [] {
      NeverUnsafe(log, c, width, height);
      PutKeepsLog(log, c, color, width, height);
      assert ([] + [c])[0] == c && ([] + [c])[1..] == [];
      assert s + [c] == [c];
    } else {
      NeverUnsafe(log, s[0], width, height);
      PutKeepsLog(log, s[0], color, width, height);
      assert (s + [c])[0] == s[0] && (s + [c])[1..] == s[1..] + [c];
      PutTextThen(Put(log, s[0], color, width, height), s[1..], c, color, width, height);
    }
  }

  /** A string of plain characters is laid out as PlainTextLayout says. */
  lemma {:induction false} PlainTextIsText(log: Log, s: seq<byte>, color: byte, width: nat, height: nat)
    requires LogOk(log, width, height) && (width >= VGA_WIDTH || height == 1) && forall c <- s :: Plain(c)
    ensures PutText(log, s, color, width, height) == PutAll(log, s, color, width, height)
    decreases |s|
  {
    hide Put, LogOk;
    if s != [] {
      assert s[0] in s && forall c <- s[1..] :: c in s;
      PutKeepsLog(log, s[0], color, width, height);
      PlainTextIsText(Put(log, s[0], color, width, height), s[1..], color, width, height);
    }
  }

  /** Position of a cell in reading order. */
  function Place(row: nat, column: nat, width: nat): nat {
    row * width + column
  }

  lemma PlaceOrder(row: nat, column: nat, row': nat, column': nat, width: nat)
    requires column < width && column' < width
    ensures Place(row, column, width) < Place(row', column', width) <==> row < row' || (row == row' && column < column')
    ensures Place(row, column, width) == Place(row', column', width) <==> row == row' && column == column'
    ensures Place(row + 1, 0, width) == Place(row, width - 1, width) + 1
  {
    assert (row + 1) * width == row * width + width;
    if row < row' {
      PlaceRows(row, column, row', column', width);
    } else if row' < row {
      PlaceRows(row', column', row, column, width);
    }
  }

  lemma PlaceRows(row: nat, column: nat, row': nat, column': nat, width: nat)
    requires column < width && row < row'
    ensures Place(row, column, width) < Place(row', column', width)
  {
    MulMonotone(row + 1, row', width);
    assert (row + 1) * width == row * width + width;
  }

  /** Plain text fills the rows left to right, top to bottom, from the cursor on: its i-th character is i places after
      the cursor in reading order, and nothing before the cursor changes. */
  lemma {:induction false} PlainTextLayout(log: Log, s: seq<byte>, color: byte, width: nat, height: nat, r: nat, c: nat)
    requires LogOk(log, width, height) && (forall c <- s :: Plain(c)) && c < width
    ensures var after := PutAll(log, s, color, width, height);
            var start, place := Place(log.row, log.column, width), Place(r, c, width);
            && LogOk(after, width, height)
            && Place(after.row, after.column, width) == start + |s|
            && (place < start + |s| ==> r < |after.rows|)
            && (start <= place < start + |s| ==> after.rows[r][c] == Cell(s[place - start], color))
            && (place < start ==> r < |log.rows| && after.rows[r][c] == log.rows[r][c])
    decreases |s|
  {
    hide Put, LogOk, Place;
    LogShape(log, width, height, r, c);
    if s != [] {
      assert s[0] in s && forall c <- s[1..] :: c in s;
      var next := Put(log, s[0], color, width, height);
      PutKeepsLog(log, s[0], color, width, height);
      PutPlain(log, s[0], color, width, height, r, c);
      PlainTextLayout(next, s[1..], color, width, height, r, c);
    }
  }

  lemma LogShape(log: Log, width: nat, height: nat, r: nat, c: nat)
    requires LogOk(log, width, height) && c < width
    ensures forall i | 0 <= i < |log.rows| :: |log.rows[i]| == width
    ensures Place(r, c, width) < Place(log.row, log.column, width) ==> r < |log.rows|
  {
    PlaceOrder(r, c, log.row, log.column, width);
  }

  lemma PutPlain(log: Log, ch: byte, color: byte, width: nat, height: nat, r: nat, c: nat)
    requires LogOk(log, width, height) && Plain(ch) && c < width
    ensures var after := Put(log, ch, color, width, height);
            var start, place := Place(log.row, log.column, width), Place(r, c, width);
            && LogOk(after, width, height)
            && Place(after.row, after.column, width) == start + 1
            && (place == start ==> r < |after.rows| && after.rows[r][c] == Cell(ch, color))
            && (place < start ==> r < |log.rows| && r < |after.rows| && after.rows[r][c] == log.rows[r][c])
  {
    hide Place;
    PlaceOrder(r, c, log.row, log.column, width);
    PlaceOrder(log.row, log.column, log.row, log.column, width);
    PlaceSucc(log.row, log.column, width);
  }

  lemma PlaceSucc(row: nat, column: nat, width: nat)
    ensures Place(row, column + 1, width) == Place(row, column, width) + 1
  {
  }

  // ---- the cursor alone ----

  /** Cursor position on the screen. */
  datatype Cursor = Cursor(row: nat, column: nat)

  predicate CursorOk(p: Cursor, width: nat, height: nat) {
    p.row < height && p.column < width
  }

  /** What one character does to the cursor, on a screen of any size. */
  function Move(p: Cursor, c: byte, width: nat, height: nat): Cursor
    requires height >= 1
  {
    var down := if p.row + 1 < height then p.row + 1 else height - 1;
    if c == LINE_FEED then Cursor(down, 0)
    else if c == CARRIAGE_RETURN then Cursor(p.row, 0)
    else if c == BACKSPACE then
      if p.column > 0 then Cursor(p.row, p.column - 1)
      else if p.row > 0 then Cursor(p.row - 1, VGA_WIDTH - 1)
      else p
    else if p.column + 1 == width then Cursor(down, 0)
    else Cursor(p.row, p.column + 1)
  }

  function MoveAll(p: Cursor, s: seq<byte>, width: nat, height: nat): Cursor
    requires height >= 1
    decreases |s|
  {
    if s == [] then p else MoveAll(Move(p, s[0], width, height), s[1..], width, height)
  }

  /** The log's cursor moves the way the screen's does. */
  lemma PutMoves(log: Log, c: byte, color: byte, width: nat, height: nat)
    requires LogOk(log, width, height) && !Unsafe(log, c, width, height)
    ensures var after := Put(log, c, color, width, height);
            && LogOk(after, width, height)
            && Cursor(after.row - Top(after, height), after.column)
               == Move(Cursor(log.row - Top(log, height), log.column), c, width, height)
  {
  }

  /** From the home position every output keeps the cursor on the screen exactly when the screen is at least 80 columns
      wide or has a single row. */
  lemma CursorStaysOnScreenIff(width: nat, height: nat)
    requires 1 <= width && 1 <= height
    ensures (forall s: seq<byte> :: CursorOk(MoveAll(Cursor(0, 0), s, width, height), width, height))
            <==> (width >= VGA_WIDTH || height == 1)
  {
    if width >= VGA_WIDTH || height == 1 {
      forall s: seq<byte>
        ensures CursorOk(MoveAll(Cursor(0, 0), s, width, height), width, height)
      {
        MoveAllStays(Cursor(0, 0), s, width, height);
      }
    } else {
      var s: seq<byte> := [LINE_FEED, BACKSPACE];
      assert s[1..] == [BACKSPACE] && s[1..][1..] == [];
      var below := Cursor(1, 0);
      assert Move(Cursor(0, 0), LINE_FEED, width, height) == below;
      assert MoveAll(below, [BACKSPACE], width, height) == Cursor(0, VGA_WIDTH - 1);
      assert !CursorOk(MoveAll(Cursor(0, 0), s, width, height), width, height);
    }
  }

  lemma {:induction false} MoveAllStays(p: Cursor, s: seq<byte>, width: nat, height: nat)
    requires CursorOk(p, width, height) && (width >= VGA_WIDTH || height == 1)
    ensures CursorOk(MoveAll(p, s, width, height), width, height)
    decreases |s|
  {
    if s != [] {
      MoveAllStays(Move(p, s[0], width, height), s[1..], width, height);
    }
  }
}
