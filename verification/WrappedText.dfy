/** What the screen shows, said without a screen: text wrapped into rows of 80 columns. */
module WrappedText {
  import opened Bytes
  import opened Console

  /**
   * The rows of the text `s[i..]` when `row` is already on the current one. A newline on an empty
   * row is dropped, so the newline after a full row adds no empty one; a carriage return never is.
   */
  function Wrap(row: seq<Byte>, s: seq<Byte>, i: nat): (rows: seq<seq<Byte>>)
    ensures |rows| >= 1
    decreases |s| - i
  {
    if i >= |s| then [row]
    else if s[i] == NUL || (s[i] == NEWLINE && row == []) then Wrap(row, s, i + 1)
    else if s[i] == NEWLINE || s[i] == RETURN then [row] + Wrap([], s, i + 1)
    else if |row| + 1 == COLS then [row + [s[i]]] + Wrap([], s, i + 1)
    else Wrap(row + [s[i]], s, i + 1)
  }

  /** The character in row `r` and column `c`; everything that is not text is blank. */
  function CellOf(rows: seq<seq<Byte>>, r: nat, c: nat): Byte {
    if r < |rows| && c < |rows[r]| then rows[r][c] else SPACE
  }

  function GridCell(rows: seq<seq<Byte>>, k: nat): Byte {
    CellOf(rows, k / COLS, k % COLS)
  }

  /** A log with finished rows `done` and the row `row` of the cursor. */
  function LogOf(done: seq<seq<Byte>>, row: seq<Byte>): Log {
    Log(seq(COLS * Max(ROWS, |done| + 1), k requires 0 <= k => GridCell(done + [row], k)), COLS * |done| + |row|)
  }

  predicate FitsColumns(done: seq<seq<Byte>>, row: seq<Byte>) {
    |row| < COLS && forall r :: 0 <= r < |done| ==> |done[r]| <= COLS
  }

  /** The log of a cleared screen. */
  function ClearedLog(): Log { LogOf([], []) }

  lemma PositionOf(n: nat, c: nat, k: nat)
    requires c < COLS
    ensures (COLS * n + c) / COLS == n && (COLS * n + c) % COLS == c
    ensures k / COLS == n && k % COLS == c <==> k == COLS * n + c
  {
  }

  lemma LogOfValid(done: seq<seq<Byte>>, row: seq<Byte>)
    requires FitsColumns(done, row)
    ensures ValidLog(LogOf(done, row))
  {
  }

  /** A character that does not fill the row. */
  lemma PutInRow(done: seq<seq<Byte>>, row: seq<Byte>, c: Byte)
    requires FitsColumns(done, row) && |row| + 1 < COLS && c != NUL && c != NEWLINE && c != RETURN
    ensures ValidLog(LogOf(done, row))
    ensures LogPut(LogOf(done, row), c) == LogOf(done, row + [c])
  {
    LogOfValid(done, row);
    var log, goal := LogOf(done, row), LogOf(done, row + [c]);
    var cells := log.cells[log.pos := c];
    forall k | 0 <= k < |cells| ensures cells[k] == goal.cells[k] {
      PositionOf(|done|, |row|, k);
      CellsOfRow(done, row, row + [c], k);
    }
    assert cells == goal.cells;
  }

  /** Rows that differ only in the last one have the same cells above it. */
  lemma CellsOfRow(done: seq<seq<Byte>>, row: seq<Byte>, row': seq<Byte>, k: nat)
    ensures k / COLS != |done| ==> GridCell(done + [row], k) == GridCell(done + [row'], k)
    ensures k / COLS == |done| ==> GridCell(done + [row], k) == if k % COLS < |row| then row[k % COLS] else SPACE
    ensures k / COLS == |done| ==> GridCell(done + [row'], k) == if k % COLS < |row'| then row'[k % COLS] else SPACE
  {
  }

  /** The cursor goes to a new row below the finished row `row`. */
  lemma GrownIsNextRow(done: seq<seq<Byte>>, row: seq<Byte>)
    requires FitsColumns(done, []) && |row| <= COLS
    ensures Grown(LogOf(done, row).cells, COLS * (|done| + 1)) == LogOf(done + [row], [])
  {
    var cells, goal := LogOf(done, row).cells, LogOf(done + [row], []);
    var log := Grown(cells, COLS * (|done| + 1));
    assert |log.cells| == |goal.cells|;
    forall k | 0 <= k < |goal.cells| ensures log.cells[k] == goal.cells[k] {
      if k < |cells| {
        CellsOfNextRow(done, row, k);
      } else {
        assert k / COLS >= |done| + 1;
      }
    }
    assert log.cells == goal.cells;
  }

  lemma CellsOfNextRow(done: seq<seq<Byte>>, row: seq<Byte>, k: nat)
    ensures GridCell(done + [row] + [[]], k) == GridCell(done + [row], k)
  {
  }

  /** A character that fills the row. */
  lemma PutAtEndOfRow(done: seq<seq<Byte>>, row: seq<Byte>, c: Byte)
    requires FitsColumns(done, row) && |row| + 1 == COLS && c != NUL && c != NEWLINE && c != RETURN
    ensures ValidLog(LogOf(done, row))
    ensures LogPut(LogOf(done, row), c) == LogOf(done + [row + [c]], [])
  {
    LogOfValid(done, row);
    var log, goal := LogOf(done, row), LogOf(done, row + [c]);
    var cells := log.cells[log.pos := c];
    forall k | 0 <= k < |cells| ensures cells[k] == goal.cells[k] {
      PositionOf(|done|, |row|, k);
      CellsOfRow(done, row, row + [c], k);
    }
    assert cells == goal.cells;
    GrownIsNextRow(done, row + [c]);
  }

  lemma PutNewline(done: seq<seq<Byte>>, row: seq<Byte>, c: Byte)
    requires FitsColumns(done, row) && (c == RETURN || (c == NEWLINE && row != []))
    ensures ValidLog(LogOf(done, row))
    ensures LogPut(LogOf(done, row), c) == LogOf(done + [row], [])
  {
    LogOfValid(done, row);
    PositionOf(|done|, |row|, 0);
    GrownIsNextRow(done, row);
  }

  /** One character moves from the text to the rows of the log. */
  lemma OneWrapped(done0: seq<seq<Byte>>, row0: seq<Byte>, s: seq<Byte>, i: nat)
    returns (done: seq<seq<Byte>>, row: seq<Byte>)
    requires i < |s| && FitsColumns(done0, row0)
    ensures FitsColumns(done, row) && ValidLog(LogOf(done0, row0))
    ensures LogPut(LogOf(done0, row0), s[i]) == LogOf(done, row)
    ensures done0 + Wrap(row0, s, i) == done + Wrap(row, s, i + 1)
  {
    hide LogOf;
    var c := s[i];
    LogOfValid(done0, row0);
    DropsNothing(done0, row0, c);
    if c == NUL || (c == NEWLINE && row0 == []) {
      done, row := done0, row0;
    } else if c == NEWLINE || c == RETURN {
      PutNewline(done0, row0, c);
      done, row := done0 + [row0], [];
      ConcatAssociates(done0, [row0], Wrap([], s, i + 1));
    } else if |row0| + 1 == COLS {
      PutAtEndOfRow(done0, row0, c);
      done, row := done0 + [row0 + [c]], [];
      ConcatAssociates(done0, [row0 + [c]], Wrap([], s, i + 1));
    } else {
      PutInRow(done0, row0, c);
      done, row := done0, row0 + [c];
    }
  }

  /** A NUL, and a newline on an empty row, leave the log as it is. */
  lemma DropsNothing(done: seq<seq<Byte>>, row: seq<Byte>, c: Byte)
    requires FitsColumns(done, row)
    ensures ValidLog(LogOf(done, row))
    ensures c == NUL || (c == NEWLINE && row == []) ==> LogPut(LogOf(done, row), c) == LogOf(done, row)
  {
    LogOfValid(done, row);
    PositionOf(|done|, |row|, 0);
  }

  /** After `i` characters the log holds the finished rows and the started one. */
  lemma {:induction false} LogIsWrap(s: seq<Byte>, i: nat) returns (done: seq<seq<Byte>>, row: seq<Byte>)
    requires i <= |s|
    ensures FitsColumns(done, row) && ValidLog(ClearedLog())
    ensures LogPuts(ClearedLog(), s[..i]) == LogOf(done, row)
    ensures Wrap([], s, 0) == done + Wrap(row, s, i)
  {
    hide LogOf, Wrap, LogPut;
    LogOfValid([], []);
    if i == 0 {
      done, row := [], [];
      assert [] + Wrap([], s, 0) == Wrap([], s, 0);
    } else {
      var done0, row0 := LogIsWrap(s, i - 1);
      assert s[..i][..i - 1] == s[..i - 1];
      done, row := OneWrapped(done0, row0, s, i - 1);
    }
  }

  /** A page that `clear` has filled with blanks, with the cursor in the corner. */
  predicate Cleared(v: View) {
    ValidView(v) && v.x == 0 && v.y == 0 &&
    forall k :: 0 <= k < CELLS ==> Glyph(v.page, k) == SPACE && Attribute(v.page, k) == ATTRIB
  }

  /** The character and attribute at row `r` and column `c` of the screen. */
  function OnScreen(page: seq<Byte>, r: nat, c: nat): (Byte, Byte)
    requires |page| == PAGE && r < ROWS && c < COLS
  {
    (Glyph(page, COLS * r + c), Attribute(page, COLS * r + c))
  }

  /** A screen that shows the log of some rows shows the last 25 of them. */
  lemma RowsOnScreen(v: View, done: seq<seq<Byte>>, row: seq<Byte>, r: nat, c: nat)
    requires Shows(v, LogOf(done, row)) && FitsColumns(done, row) && r < ROWS && c < COLS
    ensures OnScreen(v.page, r, c) == (CellOf(done + [row], Max(0, |done| + 1 - ROWS) + r, c), ATTRIB)
  {
    var log, k := LogOf(done, row), COLS * r + c;
    PositionOf(Max(0, |done| + 1 - ROWS) + r, c, 0);
    assert Glyph(v.page, k) == log.cells[log.Top() + k];
    assert log.Top() + k == COLS * (Max(0, |done| + 1 - ROWS) + r) + c;
  }

  lemma CursorOnScreen(v: View, done: seq<seq<Byte>>, row: seq<Byte>)
    requires Shows(v, LogOf(done, row)) && FitsColumns(done, row)
    ensures v.x == |row| && v.y == Min(|done|, ROWS - 1)
  {
    ColumnOf(v, LogOf(done, row));
    PositionOf(|done|, |row|, 0);
  }

  /**
   * Whatever is written on a cleared screen, it shows the last 25 rows of the wrapped text, blank
   * below them, in the normal attribute, with the cursor behind the last character.
   */
  lemma ScreenShowsEndOfText(v: View, s: seq<Byte>)
    requires Cleared(v)
    ensures var after, rows := PutsStep(v, s), Wrap([], s, 0);
            && after.x == |rows[|rows| - 1]| && after.y == Min(|rows| - 1, ROWS - 1)
            && forall r, c :: 0 <= r < ROWS && 0 <= c < COLS ==>
                 OnScreen(after.page, r, c) == (CellOf(rows, Max(0, |rows| - ROWS) + r, c), ATTRIB)
  {
    hide Glyph, Attribute, PutsStep, LogPuts, OnScreen;
    var done, row := LogIsWrap(s, |s|);
    var after, rows := PutsStep(v, s), done + [row];
    assert s[..|s|] == s && Wrap([], s, 0) == rows;
    ClearedShows(v);
    PutsShowsLog(v, ClearedLog(), s);
    CursorOnScreen(after, done, row);
    forall r, c | 0 <= r < ROWS && 0 <= c < COLS
      ensures OnScreen(after.page, r, c) == (CellOf(rows, Max(0, |rows| - ROWS) + r, c), ATTRIB)
    {
      RowsOnScreen(after, done, row, r, c);
    }
  }

  lemma ClearedShows(v: View)
    requires Cleared(v)
    ensures Shows(v, ClearedLog())
  {
  }

  /** Characters that neither end a row nor are dropped. */
  predicate Printable(s: seq<Byte>) {
    forall i :: 0 <= i < |s| ==> s[i] != NUL && s[i] != NEWLINE && s[i] != RETURN
  }

  /** Typing on a log overwrites the cells from the cursor on and adds blank rows as needed. */
  lemma {:induction false} TypingFillsCells(log: Log, s: seq<Byte>)
    requires ValidLog(log) && Printable(s)
    ensures var t := LogPuts(log, s);
            && t.pos == log.pos + |s| && |t.cells| >= |log.cells|
            && (|t.cells| > |log.cells| ==> |t.cells| <= t.pos + COLS)
            && forall k :: 0 <= k < |t.cells| ==>
                 t.cells[k] == if log.pos <= k < t.pos then s[k - log.pos]
                               else if k < |log.cells| then log.cells[k] else SPACE
  {
    if s != [] {
      TypingFillsCells(log, s[..|s| - 1]);
    }
  }

  function LogErases(log: Log, n: nat): (r: Log)
    requires ValidLog(log)
    ensures ValidLog(r)
  {
    if n == 0 then log else LogErase(LogErases(log, n - 1))
  }

  lemma {:induction false} ErasingClearsCells(log: Log, n: nat)
    requires ValidLog(log) && log.Top() + n <= log.pos
    ensures var t := LogErases(log, n);
            && t.pos == log.pos - n && |t.cells| == |log.cells|
            && forall k :: 0 <= k < |t.cells| ==> t.cells[k] == if t.pos <= k < log.pos then NUL else log.cells[k]
  {
    if n > 0 {
      ErasingClearsCells(log, n - 1);
    }
  }

  /**
   * Typing up to 24 rows of characters and erasing them all brings the cursor back to where it was
   * in the text, even when rows wrapped or the screen scrolled; only the typed cells are changed.
   */
  lemma TypeThenErase(log: Log, s: seq<Byte>)
    requires ValidLog(log) && Printable(s) && |s| <= CELLS - COLS
    ensures var t := LogErases(LogPuts(log, s), |s|);
            && t.pos == log.pos && |t.cells| >= |log.cells|
            && forall k :: 0 <= k < |t.cells| ==>
                 t.cells[k] == if log.pos <= k < log.pos + |s| then NUL
                               else if k < |log.cells| then log.cells[k] else SPACE
  {
    TypingFillsCells(log, s);
    ErasingClearsCells(LogPuts(log, s), |s|);
  }
}
