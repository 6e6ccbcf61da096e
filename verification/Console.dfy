/** The 80x25 text screen and the unbounded log of which it shows the last 25 rows. */
module Console {
  import opened Bytes

  const COLS := 80
  const ROWS := 25
  const CELLS := 2000
  const PAGE := 4096
  const ATTRIB: Byte := 7

  /** A page of video memory and the cursor. Cell `k` is a character byte and an attribute byte. */
  datatype View = View(page: seq<Byte>, x: nat, y: nat)

  predicate ValidView(v: View) {
    |v.page| == PAGE && v.x < COLS && v.y < ROWS
  }

  function Glyph(page: seq<Byte>, k: nat): Byte
    requires 2 * k + 1 < |page|
  {
    page[2 * k]
  }

  function Attribute(page: seq<Byte>, k: nat): Byte
    requires 2 * k + 1 < |page|
  {
    page[2 * k + 1]
  }

  function Store(page: seq<Byte>, k: nat, c: Byte): (r: seq<Byte>)
    requires 2 * k + 1 < |page|
    ensures |r| == |page|
    ensures forall m :: 0 <= m < |page| / 2 ==>
      Glyph(r, m) == (if m == k then c else Glyph(page, m)) &&
      Attribute(r, m) == if m == k then ATTRIB else Attribute(page, m)
  {
    page[2 * k := c][2 * k + 1 := ATTRIB]
  }

  /** `count` blank cells. */
  function Blanks(count: nat): seq<Byte> {
    seq(2 * count, i => if i % 2 == 0 then SPACE else ATTRIB)
  }

  /** The page after a scroll: rows 1 to 24 move up and a blank row comes in below. */
  function Scrolled(page: seq<Byte>): (r: seq<Byte>)
    requires |page| == PAGE
    ensures |r| == PAGE
  {
    page[2 * COLS..2 * CELLS] + Blanks(COLS) + page[2 * CELLS..]
  }

  /** `putc`, on the page it writes to. */
  function PutcStep(v: View, c: Byte): (r: View)
    requires ValidView(v)
    ensures ValidView(r)
  {
    if c == NUL || (c == NEWLINE && v.x == 0) then v
    else if c == NEWLINE || c == RETURN then
      if v.y + 1 >= ROWS then View(Scrolled(v.page), 0, ROWS - 1) else View(v.page, 0, v.y + 1)
    else
      var page := Store(v.page, COLS * v.y + v.x, c);
      var x, y := (v.x + 1) % COLS, v.y + (v.x + 1) / COLS;
      if y >= ROWS then View(Scrolled(page), x, ROWS - 1) else View(page, x, y)
  }

  /** `rm_c`, once it has decided to erase. */
  function EraseStep(v: View): (r: View)
    requires ValidView(v)
    ensures ValidView(r)
  {
    if v.x == 0 && v.y == 0 then v
    else
      var page := Store(v.page, COLS * v.y + v.x - 1, NUL);
      if v.x > 0 then View(page, v.x - 1, v.y) else View(page, COLS - 1, v.y - 1)
  }

  /** All characters ever shown, row after row without end of memory, and the position of the cursor. */
  datatype Log = Log(cells: seq<Byte>, pos: nat) {
    /** Where the screen begins: it shows the last 25 rows. */
    function Top(): int { |cells| - CELLS }
  }

  predicate ValidLog(log: Log) {
    |log.cells| % COLS == 0 && 0 <= log.Top() <= log.pos < |log.cells|
  }

  function BlankRow(): seq<Byte> { seq(COLS, _ => SPACE) }

  /** The log grows by a row when the cursor leaves its last row. */
  function Grown(cells: seq<Byte>, pos: nat): Log {
    Log(if pos == |cells| then cells + BlankRow() else cells, pos)
  }

  function LogPut(log: Log, c: Byte): Log
    requires ValidLog(log)
  {
    if c == NUL || (c == NEWLINE && log.pos % COLS == 0) then log
    else if c == NEWLINE || c == RETURN then Grown(log.cells, (log.pos / COLS + 1) * COLS)
    else Grown(log.cells[log.pos := c], log.pos + 1)
  }

  /** A backspace, which cannot reach above the screen. */
  function LogErase(log: Log): Log
    requires ValidLog(log)
  {
    if log.pos == log.Top() then log else Log(log.cells[log.pos - 1 := NUL], log.pos - 1)
  }

  /** The screen shows the last 25 rows of the log, all in the normal attribute, and its cursor. */
  ghost predicate Shows(v: View, log: Log) {
    && ValidView(v) && ValidLog(log)
    && log.pos == log.Top() + COLS * v.y + v.x
    && forall k :: 0 <= k < CELLS ==>
         Glyph(v.page, k) == log.cells[log.Top() + k] && Attribute(v.page, k) == ATTRIB
  }

  lemma ScrolledCells(page: seq<Byte>, k: nat)
    requires |page| == PAGE && k < CELLS
    ensures Glyph(Scrolled(page), k) == (if k < CELLS - COLS then Glyph(page, k + COLS) else SPACE)
    ensures Attribute(Scrolled(page), k) == (if k < CELLS - COLS then Attribute(page, k + COLS) else ATTRIB)
  {
  }

  lemma LogPutKeepsValid(log: Log, c: Byte)
    requires ValidLog(log)
    ensures ValidLog(LogPut(log, c))
  {
  }

  /** A scroll of the screen is a new row of the log. */
  lemma ScrollShowsGrown(page: seq<Byte>, cells: seq<Byte>)
    requires |page| == PAGE && |cells| >= CELLS && |cells| % COLS == 0
    requires forall k :: 0 <= k < CELLS ==>
      Glyph(page, k) == cells[|cells| - CELLS + k] && Attribute(page, k) == ATTRIB
    ensures Shows(View(Scrolled(page), 0, ROWS - 1), Grown(cells, |cells|))
  {
    var log := Grown(cells, |cells|);
    forall k | 0 <= k < CELLS
      ensures Glyph(Scrolled(page), k) == log.cells[log.Top() + k] && Attribute(Scrolled(page), k) == ATTRIB
    {
      ScrolledCells(page, k);
      if k < CELLS - COLS {
        assert log.cells[log.Top() + k] == cells[|cells| - CELLS + (k + COLS)];
      }
    }
  }

  /** Screen rows are log rows: the column is the position within its row. */
  lemma ColumnOf(v: View, log: Log)
    requires Shows(v, log)
    ensures log.pos % COLS == v.x
    ensures (log.pos / COLS + 1) * COLS == log.pos - v.x + COLS <= |log.cells|
    ensures (log.pos / COLS + 1) * COLS == |log.cells| <==> v.y + 1 == ROWS
  {
    var t := log.Top() / COLS;
    assert log.Top() == COLS * t;
    assert log.pos == COLS * (t + v.y) + v.x;
  }

  lemma NewlineShowsLog(v: View, log: Log, c: Byte)
    requires Shows(v, log) && (c == RETURN || (c == NEWLINE && v.x != 0))
    ensures Shows(PutcStep(v, c), LogPut(log, c))
  {
    hide Glyph, Attribute, Scrolled;
    ColumnOf(v, log);
    if v.y + 1 >= ROWS {
      ScrollShowsGrown(v.page, log.cells);
    }
  }

  lemma CharShowsLog(v: View, log: Log, c: Byte)
    requires Shows(v, log) && c != NUL && c != NEWLINE && c != RETURN
    ensures Shows(PutcStep(v, c), LogPut(log, c))
  {
    hide Glyph, Attribute, Scrolled;
    ColumnOf(v, log);
    var page, cells := Store(v.page, COLS * v.y + v.x, c), log.cells[log.pos := c];
    assert forall k :: 0 <= k < CELLS ==> Glyph(page, k) == cells[|cells| - CELLS + k] && Attribute(page, k) == ATTRIB;
    if v.x + 1 == COLS && v.y + 1 == ROWS {
      ScrollShowsGrown(page, cells);
    }
  }

  /** `putc` on the screen is `putc` on the log. */
  lemma PutcShowsLog(v: View, log: Log, c: Byte)
    requires Shows(v, log)
    ensures Shows(PutcStep(v, c), LogPut(log, c))
  {
    ColumnOf(v, log);
    if c == RETURN || (c == NEWLINE && v.x != 0) {
      NewlineShowsLog(v, log, c);
    } else if c != NUL && c != NEWLINE {
      CharShowsLog(v, log, c);
    }
  }

  lemma EraseShowsLog(v: View, log: Log)
    requires Shows(v, log)
    ensures Shows(EraseStep(v), LogErase(log))
  {
    hide Glyph, Attribute;
  }

  /** The array with `block` at `dest` and everything else as it was. */
  lemma BlockPlaced(a: array<Byte>, was: seq<Byte>, dest: nat, block: seq<Byte>)
    requires dest + |block| <= a.Length == |was|
    requires forall k :: 0 <= k < |block| ==> a[dest + k] == block[k]
    requires forall k :: 0 <= k < a.Length && !(dest <= k < dest + |block|) ==> a[k] == was[k]
    ensures a[..] == was[..dest] + block + was[dest + |block|..]
  {
    forall k | dest <= k < dest + |block| ensures a[k] == block[k - dest] {
      assert a[dest + (k - dest)] == block[k - dest];
    }
  }

  method CopyForwards(a: array<Byte>, dest: nat, src: nat, n: nat)
    requires dest <= src && src + n <= a.Length
    modifies a
    ensures a[..] == old(a[..dest] + a[src..src + n] + a[dest + n..])
  {
    ghost var was, block := a[..], a[src..src + n];
    var i := 0;
    while i < n
      invariant 0 <= i <= n
      invariant forall k :: 0 <= k < i ==> a[dest + k] == block[k]
      invariant forall k :: 0 <= k < a.Length && !(dest <= k < dest + i) ==> a[k] == was[k]
    {
      assert a[src + i] == was[src + i] == block[i];
      a[dest + i] := a[src + i];
      i := i + 1;
    }
    BlockPlaced(a, was, dest, block);
  }

  method CopyBackwards(a: array<Byte>, dest: nat, src: nat, n: nat)
    requires src <= dest && dest + n <= a.Length
    modifies a
    ensures a[..] == old(a[..dest] + a[src..src + n] + a[dest + n..])
  {
    ghost var was, block := a[..], a[src..src + n];
    var i := n;
    while i > 0
      invariant 0 <= i <= n
      invariant forall k :: i <= k < n ==> a[dest + k] == block[k]
      invariant forall k :: 0 <= k < a.Length && !(dest + i <= k < dest + n) ==> a[k] == was[k]
    {
      i := i - 1;
      assert a[src + i] == was[src + i] == block[i];
      a[dest + i] := a[src + i];
    }
    BlockPlaced(a, was, dest, block);
  }

  /** `memmove`: forwards when the source is not below the destination, backwards otherwise. */
  method MemMove(a: array<Byte>, dest: nat, src: nat, n: nat)
    requires dest + n <= a.Length && src + n <= a.Length
    modifies a
    ensures a[..] == old(a[..dest] + a[src..src + n] + a[dest + n..])
  {
    if src >= dest {
      CopyForwards(a, dest, src, n);
    } else {
      CopyBackwards(a, dest, src, n);
    }
  }

  /** The loop of `putc` that blanks the row the scroll has left over. */
  method ClearRow(page: array<Byte>, x: nat, y: nat)
    requires page.Length == PAGE && x == 0 && y < ROWS
    modifies page
    ensures page[..] == old(page[..2 * COLS * y] + Blanks(COLS) + page[2 * COLS * (y + 1)..])
  {
    ghost var was := page[..];
    var idx := 0;
    while idx < COLS
      invariant 0 <= idx <= COLS
      invariant forall k :: 0 <= k < PAGE ==>
        page[k] == if 2 * COLS * y <= k < 2 * COLS * y + 2 * idx then (if k % 2 == 0 then SPACE else ATTRIB) else was[k]
    {
      page[2 * (COLS * y + x + idx)] := SPACE;
      page[2 * (COLS * y + x + idx) + 1] := ATTRIB;
      idx := idx + 1;
    }
    RowBlanked(was, page[..], y);
  }

  lemma RowBlanked(was: seq<Byte>, now: seq<Byte>, y: nat)
    requires |was| == |now| == PAGE && y < ROWS
    requires forall k :: 0 <= k < PAGE ==>
      now[k] == if 2 * COLS * y <= k < 2 * COLS * (y + 1) then (if k % 2 == 0 then SPACE else ATTRIB) else was[k]
    ensures now == was[..2 * COLS * y] + Blanks(COLS) + was[2 * COLS * (y + 1)..]
  {
  }

  /** The scroll of `putc`. */
  method Scroll(page: array<Byte>, x: nat)
    requires page.Length == PAGE && x == 0
    modifies page
    ensures page[..] == Scrolled(old(page[..]))
  {
    ghost var was := page[..];
    MemMove(page, 0, 2 * COLS, 2 * COLS * (ROWS - 1));
    ClearRow(page, x, ROWS - 1);
    assert page[..] == Scrolled(was);
  }

  /** `putc` on the page that the caller has chosen; the cursor is passed in and out. */
  method Putc(page: array<Byte>, x: nat, y: nat, c: Byte) returns (x': nat, y': nat)
    requires ValidView(View(page[..], x, y))
    modifies page
    ensures View(page[..], x', y') == PutcStep(old(View(page[..], x, y)), c)
  {
    x', y' := x, y;
    if c == NUL {
      return;
    } else if c == NEWLINE && x == 0 {
      return;
    }
    if c == NEWLINE || c == RETURN {
      y' := y' + 1;
      x' := 0;
      if y' >= ROWS {
        Scroll(page, x');
        y' := ROWS - 1;
      }
    } else {
      page[2 * (COLS * y + x)] := c;
      page[2 * (COLS * y + x) + 1] := ATTRIB;
      assert page[..] == Store(old(page[..]), COLS * y + x, c);
      x' := x' + 1;
      y' := y' + x' / COLS;
      x' := x' % COLS;
      if y' >= ROWS {
        Scroll(page, x');
        y' := ROWS - 1;
      }
    }
  }

  /** The erasing part of `rm_c`. */
  method Erase(page: array<Byte>, x: nat, y: nat) returns (x': nat, y': nat)
    requires ValidView(View(page[..], x, y))
    modifies page
    ensures View(page[..], x', y') == EraseStep(old(View(page[..], x, y)))
  {
    x', y' := x, y;
    if y == 0 && x == 0 { return; }
    page[2 * (COLS * y + x - 1)] := NUL;
    page[2 * (COLS * y + x - 1) + 1] := ATTRIB;
    assert page[..] == Store(old(page[..]), COLS * y + x - 1, NUL);
    if x' != 0 {
      x' := x' - 1;
    } else if y' != 0 {
      x' := COLS - 1;
      y' := y' - 1;
    }
  }

  /** A whole write: `terminal_write`, or `puts` on a string without its terminator. */
  function PutsStep(v: View, s: seq<Byte>): (r: View)
    requires ValidView(v)
    ensures ValidView(r)
  {
    if s == [] then v else PutcStep(PutsStep(v, s[..|s| - 1]), s[|s| - 1])
  }

  function LogPuts(log: Log, s: seq<Byte>): (r: Log)
    requires ValidLog(log)
    ensures ValidLog(r)
  {
    if s == [] then log
    else
      LogPutKeepsValid(LogPuts(log, s[..|s| - 1]), s[|s| - 1]);
      LogPut(LogPuts(log, s[..|s| - 1]), s[|s| - 1])
  }

  /** `terminal_write`. */
  method Write(page: array<Byte>, x: nat, y: nat, buf: seq<Byte>) returns (count: nat, x': nat, y': nat)
    requires ValidView(View(page[..], x, y))
    modifies page
    ensures count == |buf| && View(page[..], x', y') == PutsStep(old(View(page[..], x, y)), buf)
  {
    x', y', count := x, y, 0;
    for i := 0 to |buf|
      invariant count == i && View(page[..], x', y') == PutsStep(old(View(page[..], x, y)), buf[..i])
    {
      x', y' := Putc(page, x', y', buf[i]);
      count := count + 1;
      assert buf[..i + 1][..i] == buf[..i];
    }
    assert buf[..|buf|] == buf;
  }

  /** Every run of writes on the screen is the same run on the log. */
  lemma {:induction false} PutsShowsLog(v: View, log: Log, s: seq<Byte>)
    requires Shows(v, log)
    ensures Shows(PutsStep(v, s), LogPuts(log, s))
  {
    if s != [] {
      PutsShowsLog(v, log, s[..|s| - 1]);
      PutcShowsLog(PutsStep(v, s[..|s| - 1]), LogPuts(log, s[..|s| - 1]), s[|s| - 1]);
    }
  }
}
