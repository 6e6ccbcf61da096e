/** `add_frames` of `fish.c`: two texts laid over each other, one blinker for every cell that shows something. */
module Frames {
  import opened Bytes
  import opened Blinkers

  const COLUMNS := 80
  const OFFSET := 40
  const BLINK_LENGTH := 15

  /** The row of position `p`: the line ends before it. */
  function Row(t: seq<Byte>, p: nat): nat
    requires p <= |t|
  {
    if p == 0 then 0 else Row(t, p - 1) + if t[p - 1] == NEWLINE then 1 else 0
  }

  /** The column of position `p`: the characters since the last line end. */
  function Col(t: seq<Byte>, p: nat): nat
    requires p <= |t|
  {
    if p == 0 || t[p - 1] == NEWLINE then 0 else Col(t, p - 1) + 1
  }

  /** Reading order of cells. */
  predicate Before(r: nat, c: nat, row: nat, col: nat) {
    r < row || (r == row && c < col)
  }

  predicate At(t: seq<Byte>, row: nat, col: nat, p: nat) {
    p < |t| && t[p] != NEWLINE && Row(t, p) == row && Col(t, p) == col
  }

  lemma {:induction false} PlacesIncrease(t: seq<Byte>, p: nat, q: nat)
    requires p < q <= |t|
    ensures Before(Row(t, p), Col(t, p), Row(t, q), Col(t, q))
  {
    if p < q - 1 { PlacesIncrease(t, p, q - 1); }
  }

  /** The character of a text in a cell; a line end where the text has none. */
  ghost function CharIn(t: seq<Byte>, row: nat, col: nat): Byte {
    if exists p: nat :: At(t, row, col, p) then (var p: nat :| At(t, row, col, p); t[p]) else NEWLINE
  }

  lemma CharInIs(t: seq<Byte>, row: nat, col: nat, p: nat)
    requires At(t, row, col, p)
    ensures CharIn(t, row, col) == t[p]
  {
    forall q: nat | At(t, row, col, q) ensures q == p {
      if p < q { PlacesIncrease(t, p, q); }
      if q < p { PlacesIncrease(t, q, p); }
    }
  }

  predicate Visible(c: Byte) {
    c != SPACE && c != NEWLINE
  }

  function Shown(c: Byte): Byte {
    if c == NEWLINE then SPACE else c
  }

  /** The request for a cell; its location is a 16-bit word. */
  function Request(row: nat, col: nat, c0: Byte, c1: Byte): Blink {
    Blink((row * COLUMNS + col + OFFSET) % WORD, Shown(c0), Shown(c1), BLINK_LENGTH, BLINK_LENGTH, 0, 0)
  }

  ghost predicate Lit(t0: seq<Byte>, t1: seq<Byte>, row: nat, col: nat) {
    Visible(CharIn(t0, row, col)) || Visible(CharIn(t1, row, col))
  }

  /** Each once, in reading order. */
  predicate InOrder(cells: seq<(nat, nat)>) {
    forall i, j :: 0 <= i < j < |cells| ==> Before(cells[i].0, cells[i].1, cells[j].0, cells[j].1)
  }

  /** The cells are the lit ones before (row, col), each once and in reading order. */
  ghost predicate LitCells(t0: seq<Byte>, t1: seq<Byte>, cells: seq<(nat, nat)>, row: nat, col: nat) {
    && InOrder(cells)
    && (forall i :: 0 <= i < |cells| ==> Before(cells[i].0, cells[i].1, row, col))
    && forall r: nat, c: nat :: (r, c) in cells <==> Lit(t0, t1, r, c) && Before(r, c, row, col)
  }

  /** Where a text stands that has no more characters in this row: at its end or behind a line end. */
  predicate Ended(t: seq<Byte>, p: nat, eof: bool, row: nat, col: nat) {
    if eof then p == |t| && !Before(row, col, Row(t, p), Col(t, p))
    else 0 < p <= |t| && t[p - 1] == NEWLINE && Row(t, p - 1) == row && Col(t, p - 1) <= col
  }

  /** A text before the read for (row, col), with the character read last. */
  predicate Reading(t: seq<Byte>, p: nat, c: Byte, eof: bool, row: nat, col: nat) {
    if c == NEWLINE then Ended(t, p, eof, row, col)
    else !eof && p <= |t| && Row(t, p) == row && Col(t, p) == col
  }

  function Left(t: seq<Byte>, p: nat, eof: bool): int {
    |t| - p + if eof then 0 else 1
  }

  lemma EndedHasNoChar(t: seq<Byte>, p: nat, eof: bool, row: nat, col: nat)
    requires Ended(t, p, eof, row, col)
    ensures CharIn(t, row, col) == NEWLINE
  {
    var e := if eof then p else p - 1;
    forall q: nat ensures !At(t, row, col, q) {
      if At(t, row, col, q) {
        if q < e { PlacesIncrease(t, q, e); }
        if e < q { PlacesIncrease(t, e + 1, q + 1); }
      }
    }
  }

  /** One `ece391_read` of a byte, unless the line has ended. */
  method ReadChar(t: seq<Byte>, p: nat, c: Byte, eof: bool, ghost row: nat, ghost col: nat)
    returns (q: nat, d: Byte, end: bool)
    requires Reading(t, p, c, eof, row, col)
    ensures d == CharIn(t, row, col) && Reading(t, q, d, end, row, col + 1)
    ensures d == NEWLINE ==> Ended(t, q, end, row, col)
    ensures 0 <= Left(t, q, end) <= Left(t, p, eof) && (c != NEWLINE ==> Left(t, q, end) < Left(t, p, eof))
  {
    q, d, end := p, c, eof;
    if c != NEWLINE {
      if p == |t| {
        d, end := NEWLINE, true;
      } else {
        d, q := t[p], p + 1;
      }
    }
    if d == NEWLINE {
      EndedHasNoChar(t, q, end, row, col);
    } else {
      CharInIs(t, row, col, p);
    }
  }

  lemma NextCell(t0: seq<Byte>, t1: seq<Byte>, cells: seq<(nat, nat)>, row: nat, col: nat)
    requires LitCells(t0, t1, cells, row, col)
    ensures LitCells(t0, t1, if Lit(t0, t1, row, col) then cells + [(row, col)] else cells, row, col + 1)
  {
    hide Lit;
    var more := if Lit(t0, t1, row, col) then cells + [(row, col)] else cells;
    forall r: nat, c: nat ensures (r, c) in more <==> Lit(t0, t1, r, c) && Before(r, c, row, col + 1) {
      assert Before(r, c, row, col + 1) <==> Before(r, c, row, col) || (r == row && c == col);
    }
  }

  lemma NextRow(t0: seq<Byte>, t1: seq<Byte>, cells: seq<(nat, nat)>, row: nat, col: nat,
                p0: nat, eof0: bool, p1: nat, eof1: bool)
    requires LitCells(t0, t1, cells, row, col) && Ended(t0, p0, eof0, row, col) && Ended(t1, p1, eof1, row, col)
    ensures LitCells(t0, t1, cells, row + 1, 0)
  {
    forall r: nat, c: nat | Lit(t0, t1, r, c) && Before(r, c, row + 1, 0) ensures Before(r, c, row, col) {
      if r == row && c >= col {
        EndedHasNoChar(t0, p0, eof0, row, c);
        EndedHasNoChar(t1, p1, eof1, row, c);
      }
    }
  }

  /** A text read to its end shows nothing in later rows. */
  lemma NothingBelow(t: seq<Byte>, row: nat, r: nat, c: nat)
    requires Row(t, |t|) < row && Visible(CharIn(t, r, c))
    ensures r < row
  {
    var p: nat :| At(t, r, c, p);
    PlacesIncrease(t, p, |t|);
  }

  lemma NextLine(t: seq<Byte>, p: nat, eof: bool, row: nat, col: nat, c: Byte)
    requires Ended(t, p, eof, row, col) && c != NEWLINE
    ensures Reading(t, p, if eof then NEWLINE else c, eof, row + 1, 0)
    ensures eof ==> Row(t, |t|) < row + 1
  {
  }

  /** One request for each cell, with the characters of the two texts. */
  ghost predicate Requested(t0: seq<Byte>, t1: seq<Byte>, adds: seq<Blink>, cells: seq<(nat, nat)>) {
    && |adds| == |cells|
    && forall k :: 0 <= k < |adds| ==>
         var (r, c) := cells[k]; adds[k] == Request(r, c, CharIn(t0, r, c), CharIn(t1, r, c))
  }

  /** The cells are all that show something, each once and in reading order, and there is one request for each. */
  ghost predicate Covers(t0: seq<Byte>, t1: seq<Byte>, adds: seq<Blink>, cells: seq<(nat, nat)>) {
    && Requested(t0, t1, adds, cells) && InOrder(cells)
    && forall r: nat, c: nat :: (r, c) in cells <==> Lit(t0, t1, r, c)
  }

  lemma NoCells(t0: seq<Byte>, t1: seq<Byte>)
    ensures LitCells(t0, t1, [], 0, 0) && Requested(t0, t1, [], [])
  {
  }

  lemma OneRequest(t0: seq<Byte>, t1: seq<Byte>, adds: seq<Blink>, cells: seq<(nat, nat)>, row: nat, col: nat)
    requires Requested(t0, t1, adds, cells)
    ensures var b := Request(row, col, CharIn(t0, row, col), CharIn(t1, row, col));
            Requested(t0, t1, adds + [b], cells + [(row, col)])
  {
    hide CharIn, Request;
  }

  /**
   * `add_frames` without the opening of its files: the requests, in reading order, one for each cell where
   * either text shows something and none for any other.
   */
  method AddFrames(t0: seq<Byte>, t1: seq<Byte>) returns (adds: seq<Blink>)
    ensures exists cells :: Covers(t0, t1, adds, cells)
  {
    hide CharIn, Ended, Request, LitCells, Requested;
    ghost var cells: seq<(nat, nat)> := [];
    adds := [];
    NoCells(t0, t1);
    var c0: Byte, c1: Byte := 48, 48;
    var p0: nat, p1: nat, eof0, eof1 := 0, 0, false, false;
    var row := 0;
    while !eof0 || !eof1
      invariant Reading(t0, p0, c0, eof0, row, 0) && Reading(t1, p1, c1, eof1, row, 0)
      invariant eof0 <==> c0 == NEWLINE
      invariant eof1 <==> c1 == NEWLINE
      invariant eof0 ==> Row(t0, |t0|) < row
      invariant eof1 ==> Row(t1, |t1|) < row
      invariant LitCells(t0, t1, cells, row, 0) && Requested(t0, t1, adds, cells)
      decreases Left(t0, p0, eof0) + Left(t1, p1, eof1)
    {
      var col := 0;
      while true
        invariant Reading(t0, p0, c0, eof0, row, col) && Reading(t1, p1, c1, eof1, row, col)
        invariant c0 != NEWLINE || c1 != NEWLINE
        invariant LitCells(t0, t1, cells, row, col) && Requested(t0, t1, adds, cells)
        decreases Left(t0, p0, eof0) + Left(t1, p1, eof1)
      {
        p0, c0, eof0 := ReadChar(t0, p0, c0, eof0, row, col);
        p1, c1, eof1 := ReadChar(t1, p1, c1, eof1, row, col);
        if c0 == NEWLINE && c1 == NEWLINE { break; }
        NextCell(t0, t1, cells, row, col);
        OneRequest(t0, t1, adds, cells, row, col);
        if (c0 != SPACE && c0 != NEWLINE) || (c1 != SPACE && c1 != NEWLINE) {
          adds := adds + [Request(row, col, c0, c1)];
          cells := cells + [(row, col)];
        }
        col := col + 1;
      }
      NextRow(t0, t1, cells, row, col, p0, eof0, p1, eof1);
      NextLine(t0, p0, eof0, row, col, 48);
      NextLine(t1, p1, eof1, row, col, 48);
      c0 := if eof0 then NEWLINE else 48;
      c1 := if eof1 then NEWLINE else 48;
      row := row + 1;
    }
    AllCells(t0, t1, cells, row);
    assert Covers(t0, t1, adds, cells);
  }

  lemma AllCells(t0: seq<Byte>, t1: seq<Byte>, cells: seq<(nat, nat)>, row: nat)
    requires LitCells(t0, t1, cells, row, 0) && Row(t0, |t0|) < row && Row(t1, |t1|) < row
    ensures InOrder(cells) && forall r: nat, c: nat :: (r, c) in cells <==> Lit(t0, t1, r, c)
  {
    forall r: nat, c: nat | Lit(t0, t1, r, c) ensures (r, c) in cells {
      if Visible(CharIn(t0, r, c)) { NothingBelow(t0, row, r, c); } else { NothingBelow(t1, row, r, c); }
    }
  }
}
