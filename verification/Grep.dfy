/** `grep`: the lines of a file that contain a pattern, found through a sliding 1024-byte window. */
module Grep {
  import opened Bytes
  import opened FileSystem
  import opened Descriptors
  import opened Kernel
  import opened Programs

  const BUFSIZE := 1024
  const COLON: Byte := 58

  /** Where the line that starts at `i` ends: the first newline before `j`, or `j`. */
  function LineEnd(s: seq<Byte>, i: nat, j: nat): (e: nat)
    requires i <= j <= |s|
    ensures i <= e <= j && (e < j ==> s[e] == NEWLINE)
    ensures forall k :: i <= k < e ==> s[k] != NEWLINE
    decreases j - i, s
  {
    if i == j || s[i] == NEWLINE then i else LineEnd(s, i + 1, j)
  }

  /** `s[i..j]` as lines; what follows the last newline is a line too, unless it is empty. */
  function Lines(s: seq<Byte>, i: nat, j: nat): seq<seq<Byte>>
    requires j <= |s|
    decreases j - i, s
  {
    if i >= j then [] else [s[i..LineEnd(s, i, j)]] + Lines(s, LineEnd(s, i, j) + 1, j)
  }

  /** `s[i..j]` as lines of at most 1024 bytes: longer ones are cut after every 1024. */
  function Pieces(s: seq<Byte>, i: nat, j: nat): seq<seq<Byte>>
    requires j <= |s|
    decreases j - i, s
  {
    if i >= j then []
    else if LineEnd(s, i, j) - i >= BUFSIZE then [s[i..i + BUFSIZE]] + Pieces(s, i + BUFSIZE, j)
    else [s[i..LineEnd(s, i, j)]] + Pieces(s, LineEnd(s, i, j) + 1, j)
  }

  /**
   * The pieces the window produces from position `i` on. `stale` says that the never-filled cell
   * behind the window holds a newline: then the first window that does not end in a newline is cut
   * off at its end.
   */
  function Scanned(s: seq<Byte>, i: nat, stale: bool): seq<seq<Byte>>
    decreases |s| - i, s
  {
    if stale && i + BUFSIZE <= |s| then
      Pieces(s, i, i + BUFSIZE) + Scanned(s, i + BUFSIZE, s[i + BUFSIZE - 1] == NEWLINE)
    else
      Pieces(s, i, |s|)
  }

  predicate MatchesAt(line: seq<Byte>, pattern: seq<Byte>, k: nat) {
    k + |pattern| <= |line| && line[k..k + |pattern|] == pattern
  }

  /** The line contains the pattern; the empty pattern is in no line. */
  predicate Matches(line: seq<Byte>, pattern: seq<Byte>) {
    pattern != [] && exists k :: 0 <= k < |line| && MatchesAt(line, pattern, k)
  }

  function Hits(lines: seq<seq<Byte>>, pattern: seq<Byte>): seq<seq<Byte>> {
    if lines == [] then []
    else (if Matches(lines[0], pattern) then [lines[0]] else []) + Hits(lines[1..], pattern)
  }

  /** What is printed for a list of matching lines. */
  function Report(fname: seq<Byte>, hits: seq<seq<Byte>>): seq<Byte> {
    if hits == [] then [] else fname + [COLON] + hits[0] + [NEWLINE] + Report(fname, hits[1..])
  }

  function Output(fname: seq<Byte>, lines: seq<seq<Byte>>, pattern: seq<Byte>): seq<Byte> {
    Report(fname, Hits(lines, pattern))
  }

  /** What is printed for one line: the file name, a colon and the line. */
  function Printed(fname: seq<Byte>, line: seq<Byte>, pattern: seq<Byte>): seq<Byte> {
    if Matches(line, pattern) then fname + [COLON] + line + [NEWLINE] else []
  }

  lemma HitsOfNothing(pattern: seq<Byte>)
    ensures Hits([], pattern) == [] && !Matches([], pattern)
  {
  }

  lemma HitsOfCons(line: seq<Byte>, lines: seq<seq<Byte>>, pattern: seq<Byte>)
    ensures Hits([line] + lines, pattern) == (if Matches(line, pattern) then [line] else []) + Hits(lines, pattern)
  {
    hide Matches;
    assert ([line] + lines)[1..] == lines;
  }

  lemma {:induction false} HitsOfConcat(a: seq<seq<Byte>>, b: seq<seq<Byte>>, pattern: seq<Byte>)
    ensures Hits(a + b, pattern) == Hits(a, pattern) + Hits(b, pattern)
  {
    hide Matches;
    if a == [] {
      assert a + b == b;
    } else {
      assert (a + b)[1..] == a[1..] + b;
      HitsOfConcat(a[1..], b, pattern);
    }
  }

  lemma OutputOfCons(fname: seq<Byte>, line: seq<Byte>, lines: seq<seq<Byte>>, pattern: seq<Byte>)
    ensures Output(fname, [line] + lines, pattern) == Printed(fname, line, pattern) + Output(fname, lines, pattern)
  {
    hide Matches, Hits;
    var hits := Hits(lines, pattern);
    HitsOfCons(line, lines, pattern);
    if Matches(line, pattern) {
      assert ([line] + hits)[0] == line && ([line] + hits)[1..] == hits;
    } else {
      assert [] + hits == hits;
    }
  }

  /** A shorter stretch has the same line end, or its own end. */
  lemma {:induction false} LineEndBefore(s: seq<Byte>, i: nat, c: nat, j: nat)
    requires i <= c <= j <= |s|
    ensures LineEnd(s, i, c) == Min(c, LineEnd(s, i, j))
    decreases c - i
  {
    if i < c && s[i] != NEWLINE {
      LineEndBefore(s, i + 1, c, j);
    }
  }

  /** A later start in the same line has the same line end. */
  lemma {:induction false} LineEndBehind(s: seq<Byte>, i: nat, c: nat, j: nat)
    requires i <= j <= |s| && i <= c <= LineEnd(s, i, j)
    ensures LineEnd(s, c, j) == LineEnd(s, i, j)
    decreases c - i
  {
    if i < c {
      LineEndBehind(s, i + 1, c, j);
    }
  }

  /** The first newline is the line end. */
  lemma {:induction false} LineEndIs(s: seq<Byte>, i: nat, e: nat, j: nat)
    requires i <= e <= j <= |s| && (forall k :: i <= k < e ==> s[k] != NEWLINE) && (e < j ==> s[e] == NEWLINE)
    ensures LineEnd(s, i, j) == e
    decreases e - i
  {
    if i < e {
      LineEndIs(s, i + 1, e, j);
    }
  }

  /** `s[p..q]` is a full window, or one that reaches the end of the file. */
  predicate Window(s: seq<Byte>, p: nat, q: nat) {
    p <= q <= |s| && q - p <= BUFSIZE && (q - p == BUFSIZE || q == |s|)
  }

  /** What there still is to report when the window `s[p..q]` is scanned up to position `i`. */
  function Pending(s: seq<Byte>, p: nat, q: nat, i: nat, stale: bool): seq<seq<Byte>>
    requires Window(s, p, q)
  {
    if stale && q - p == BUFSIZE then Pieces(s, i, q) + Scanned(s, q, s[q - 1] == NEWLINE)
    else Pieces(s, i, |s|)
  }

  lemma PendingAtStart(s: seq<Byte>, p: nat, q: nat, stale: bool)
    requires Window(s, p, q)
    ensures Pending(s, p, q, p, stale) == Scanned(s, p, stale)
  {
  }

  /** A newline in the window ends the next piece. */
  lemma PendingLine(s: seq<Byte>, p: nat, q: nat, i: nat, stale: bool)
    requires Window(s, p, q) && p <= i < q && LineEnd(s, i, q) < q
    ensures Pending(s, p, q, i, stale) ==
            [s[i..LineEnd(s, i, q)]] + Pending(s, p, q, LineEnd(s, i, q) + 1, stale)
  {
    hide Scanned, LineEnd, Pieces;
    LineEndBefore(s, i, q, |s|);
    PiecesStep(s, i, q);
    PiecesStep(s, i, |s|);
    var e := LineEnd(s, i, q);
    ConcatAssociates([s[i..e]], Pieces(s, e + 1, q), if q > 0 then Scanned(s, q, s[q - 1] == NEWLINE) else []);
  }

  /** Behind the last newline of a window nothing of it is left. */
  lemma PendingAtEnd(s: seq<Byte>, p: nat, q: nat, stale: bool)
    requires Window(s, p, q)
    ensures Pending(s, p, q, q, stale) == Scanned(s, q, stale && (q - p == BUFSIZE ==> s[q - 1] == NEWLINE))
  {
    assert Pieces(s, q, q) == [];
  }

  /** Without a newline, and at the front of the window or cut by the stale cell, all of it is a piece. */
  lemma PendingCut(s: seq<Byte>, p: nat, q: nat, i: nat, stale: bool)
    requires Window(s, p, q) && p <= i < q && LineEnd(s, i, q) == q
    requires q - p == BUFSIZE ==> i == p || stale
    ensures Pending(s, p, q, i, stale) == [s[i..q]] + Scanned(s, q, stale && q - p < BUFSIZE)
  {
    LineEndBefore(s, i, q, |s|);
    if stale && q - p == BUFSIZE {
      assert s[q - 1] != NEWLINE;
      assert Pieces(s, q, q) == [] && Pieces(s, q + 1, q) == [];
      assert Pieces(s, i, q) == [s[i..q]];
    } else if q - p == BUFSIZE {
      assert Pieces(s, i, |s|) == [s[i..i + BUFSIZE]] + Pieces(s, i + BUFSIZE, |s|);
    } else {
      assert Pieces(s, q, q) == [] && Pieces(s, q + 1, q) == [];
      assert Pieces(s, i, q) == [s[i..q]];
    }
  }

  /** Otherwise it is carried to the front of the next window, behind which no newline is left. */
  lemma PendingCarried(s: seq<Byte>, p: nat, q: nat, i: nat, stale: bool)
    requires Window(s, p, q) && p < i <= q && (q - p == BUFSIZE ==> !stale)
    ensures Pending(s, p, q, i, stale) == Scanned(s, i, stale && q - p < BUFSIZE)
  {
  }

  /**
   * One turn of the inner loop on a line that is not kept: it is printed, and what remains is the
   * rest of the window or, behind its last line, the rest of the file.
   */
  lemma TurnPrints(fname: seq<Byte>, pattern: seq<Byte>, s: seq<Byte>, p: nat, q: nat, i: nat, stale: bool)
    requires Window(s, p, q) && p <= i <= q && (i < q || q == |s|)
    requires LineEnd(s, i, q) == q == p + BUFSIZE ==> i == p || stale
    ensures var e := LineEnd(s, i, q);
            Output(fname, Pending(s, p, q, i, stale), pattern) ==
            Printed(fname, s[i..e], pattern) +
            Output(fname, if e + 1 < q then Pending(s, p, q, e + 1, stale)
                          else Scanned(s, q, stale && e - p < BUFSIZE), pattern)
  {
    hide Output, Printed, Pending, Scanned, LineEnd;
    var e := LineEnd(s, i, q);
    if i == q {
      PendingAtEnd(s, p, q, stale);
      NothingPrinted(fname, pattern, s, p, q, stale);
    } else if e < q {
      PendingLine(s, p, q, i, stale);
      OutputOfCons(fname, s[i..e], Pending(s, p, q, e + 1, stale), pattern);
      PendingAtEnd(s, p, q, stale);
    } else {
      PendingCut(s, p, q, i, stale);
      OutputOfCons(fname, s[i..q], Scanned(s, q, stale && q - p < BUFSIZE), pattern);
    }
  }

  /** At the end of the file there is nothing to print. */
  lemma NothingPrinted(fname: seq<Byte>, pattern: seq<Byte>, s: seq<Byte>, p: nat, q: nat, stale: bool)
    requires Window(s, p, q) && q == |s|
    ensures forall t :: Output(fname, Scanned(s, q, t), pattern) == []
    ensures Pending(s, p, q, q, stale) == [] && Printed(fname, s[q..q], pattern) == []
  {
    assert s[q..q] == [];
  }

  method FindLineEnd(data: array<Byte>, lineStart: nat, last: nat) returns (lineEnd: nat)
    requires lineStart <= last < data.Length
    ensures lineStart <= lineEnd <= last && lineEnd == LineEnd(data[..], lineStart, last)
  {
    lineEnd := lineStart;
    while lineEnd < last && NEWLINE != data[lineEnd]
      invariant lineStart <= lineEnd <= last && LineEnd(data[..], lineStart, last) == LineEnd(data[..], lineEnd, last)
    {
      lineEnd := lineEnd + 1;
    }
  }

  /** `ece391_strncmp` of the string at `check`, which ends at `lineEnd`, with a whole pattern. */
  method StartsWith(data: array<Byte>, check: nat, lineEnd: nat, pattern: seq<Byte>) returns (same: bool)
    requires check < lineEnd < data.Length && data[lineEnd] == NUL
    requires NUL !in pattern && NUL !in data[check..lineEnd]
    ensures same <==> MatchesAt(data[check..lineEnd], pattern, 0)
  {
    var n := 0;
    ghost var line := data[check..lineEnd];
    while n < |pattern|
      invariant n <= |pattern| && n <= |line| && line[..n] == pattern[..n]
    {
      if data[check + n] != pattern[n] {
        assert |pattern| <= |line| ==> line[0..0 + |pattern|][n] == line[n] == data[check + n];
        return false;
      }
      assert data[check + n] != NUL;
      n := n + 1;
    }
    assert line[0..0 + |pattern|] == line[..n];
    return true;
  }

  lemma MatchStarts(line: seq<Byte>, pattern: seq<Byte>, k: nat)
    ensures MatchesAt(line, pattern, k) && pattern != [] ==> k < |line| && line[k] == pattern[0]
  {
    if MatchesAt(line, pattern, k) && pattern != [] {
      assert line[k..k + |pattern|][0] == line[k];
    }
  }

  lemma MatchInRest(line: seq<Byte>, pattern: seq<Byte>, k: nat)
    requires k <= |line|
    ensures MatchesAt(line[k..], pattern, 0) <==> MatchesAt(line, pattern, k)
  {
    if k + |pattern| <= |line| {
      assert line[k..][0..0 + |pattern|] == line[k..k + |pattern|];
    }
  }

  /** The search loop over one line. */
  method SearchLine(data: array<Byte>, lineStart: nat, lineEnd: nat, pattern: seq<Byte>) returns (found: bool)
    requires lineStart <= lineEnd < data.Length && data[lineEnd] == NUL
    requires NUL !in pattern && NUL !in data[lineStart..lineEnd]
    ensures found <==> Matches(data[lineStart..lineEnd], pattern)
  {
    ghost var line := data[lineStart..lineEnd];
    for check := lineStart to lineEnd
      invariant pattern != [] ==> forall k :: 0 <= k < check - lineStart ==> !MatchesAt(line, pattern, k)
    {
      assert data[check] == line[check - lineStart];
      assert data[check..lineEnd] == line[check - lineStart..];
      if CharAt(pattern, 0) == data[check] {
        var same := StartsWith(data, check, lineEnd, pattern);
        MatchInRest(line, pattern, check - lineStart);
        if same { return true; }
      } else {
        MatchStarts(line, pattern, check - lineStart);
      }
    }
    return false;
  }

  /** `ece391_strcpy` from the line start to the front of the same array. */
  method CarryDown(data: array<Byte>, lineStart: nat, lineEnd: nat)
    requires 0 < lineStart <= lineEnd < data.Length && data[lineEnd] == NUL
    requires NUL !in data[lineStart..lineEnd]
    modifies data
    ensures data[..lineEnd - lineStart] == old(data[lineStart..lineEnd])
    ensures forall k :: lineEnd - lineStart < k < data.Length ==> data[k] == old(data[k])
  {
    var i := 0;
    ghost var line := data[lineStart..lineEnd];
    while data[lineStart + i] != NUL
      invariant 0 <= i <= lineEnd - lineStart && data[..i] == line[..i]
      invariant forall k :: i <= k < data.Length ==> data[k] == old(data[k])
      decreases lineEnd - lineStart - i
    {
      assert data[lineStart + i] == line[i];
      data[i] := data[lineStart + i];
      i := i + 1;
    }
    data[i] := data[lineStart + i];
  }

  /** A line that is complete is ended by a NUL in place, searched, and printed if it matches. */
  method PrintLine(fname: seq<Byte>, pattern: seq<Byte>, data: array<Byte>, lineStart: nat, lineEnd: nat)
    returns (out: seq<Byte>)
    requires lineStart <= lineEnd < data.Length
    requires NUL !in pattern && NUL !in data[lineStart..lineEnd]
    modifies data
    ensures data[..] == old(data[..])[lineEnd := NUL]
    ensures out == Printed(fname, old(data[lineStart..lineEnd]), pattern)
  {
    out := [];
    ghost var line := data[lineStart..lineEnd];
    data[lineEnd] := NUL;
    assert data[lineStart..lineEnd] == line;
    var found := SearchLine(data, lineStart, lineEnd, pattern);
    if found {
      out := fname + [COLON] + data[lineStart..lineEnd] + [NEWLINE];
    }
  }

  /**
   * The first `last` bytes of the array are the window `s[p..]`, still as it was read from
   * `lineStart` on.
   */
  ghost predicate Holds(data: array<Byte>, lineStart: nat, last: nat, s: seq<Byte>, p: nat)
    reads data
  {
    && data.Length == BUFSIZE + 1 && Window(s, p, p + last) && lineStart <= last && NUL !in s
    && (forall k :: lineStart <= k < last ==> data[k] == s[p + k])
  }

  lemma {:induction false} SameLineEnd(data: seq<Byte>, s: seq<Byte>, p: nat, i: nat, j: nat)
    requires i <= j <= |data| && p + j <= |s| && forall k :: i <= k < j ==> data[k] == s[p + k]
    ensures LineEnd(s, p + i, p + j) == p + LineEnd(data, i, j)
    ensures data[i..LineEnd(data, i, j)] == s[p + i..LineEnd(s, p + i, p + j)]
    decreases j - i
  {
    var e := LineEnd(data, i, j);
    forall m | p + i <= m < p + e ensures s[m] != NEWLINE {
      assert data[m - p] == s[p + (m - p)];
    }
    LineEndIs(s, p + i, p + e, p + j);
    assert forall k :: 0 <= k < e - i ==> data[i..e][k] == data[i + k] == s[p + i..p + e][k];
  }

  /** The decision of one turn of the inner loop: an unfinished line is kept for the next window. */
  predicate Keeps(data: array<Byte>, lineStart: nat, lineEnd: nat, cnt: nat)
    requires lineEnd < data.Length
    reads data
  {
    NEWLINE != data[lineEnd] && 0 != cnt && lineStart != 0
  }

  /** An unfinished last line is ended by a NUL and moved to the front of the array. */
  method KeepLine(data: array<Byte>, lineStart: nat, last: nat, ghost s: seq<Byte>, ghost p: nat)
    returns (kept: nat)
    requires Holds(data, lineStart, last, s, p) && 0 < lineStart < last && data[last] != NEWLINE
    modifies data
    ensures kept == last - lineStart && forall k :: 0 <= k < kept ==> data[k] == s[p + lineStart + k]
    ensures Pending(s, p, p + last, p + lineStart, old(data[BUFSIZE]) == NEWLINE) ==
            Scanned(s, p + lineStart, data[BUFSIZE] == NEWLINE)
  {
    PendingCarried(s, p, p + last, p + lineStart, data[BUFSIZE] == NEWLINE);
    data[last] := NUL;
    ghost var line := data[lineStart..last];
    assert forall k :: 0 <= k < |line| ==> line[k] == s[p + lineStart + k];
    CarryDown(data, lineStart, last);
    kept := last - lineStart;
    assert forall k :: 0 <= k < kept ==> data[k] == line[k];
  }

  /** A line that is not kept is printed; the loop goes on behind it unless the window ends there. */
  method PrintTurn(fname: seq<Byte>, pattern: seq<Byte>, data: array<Byte>, last: nat, lineStart: nat, lineEnd: nat,
                   ghost s: seq<Byte>, ghost p: nat)
    returns (printed: seq<Byte>)
    requires Holds(data, lineStart, last, s, p) && NUL !in pattern && (lineStart < last || p + last == |s|)
    requires lineEnd == LineEnd(data[..], lineStart, last)
    requires lineEnd == last == BUFSIZE ==> lineStart == 0 || data[BUFSIZE] == NEWLINE
    modifies data
    ensures lineEnd + 1 < last ==>
      && Holds(data, lineEnd + 1, last, s, p)
      && Output(fname, Pending(s, p, p + last, p + lineStart, old(data[BUFSIZE]) == NEWLINE), pattern) ==
         printed + Output(fname, Pending(s, p, p + last, p + lineEnd + 1, data[BUFSIZE] == NEWLINE), pattern)
    ensures lineEnd + 1 >= last ==>
      Output(fname, Pending(s, p, p + last, p + lineStart, old(data[BUFSIZE]) == NEWLINE), pattern) ==
      printed + Output(fname, Scanned(s, p + last, data[BUFSIZE] == NEWLINE), pattern)
  {
    hide Output, Pending, Scanned, Printed, LineEnd;
    SameLineEnd(data[..], s, p, lineStart, last);
    TurnPrints(fname, pattern, s, p, p + last, p + lineStart, data[BUFSIZE] == NEWLINE);
    assert data[lineStart..lineEnd] == data[..][lineStart..lineEnd] == s[p + lineStart..p + lineEnd];
    ghost var was := data[..];
    printed := PrintLine(fname, pattern, data, lineStart, lineEnd);
    assert forall k :: 0 <= k < data.Length && k != lineEnd ==> data[k] == was[k];
  }

  /** The last `kept` bytes before position `at` are at the front of the array, and in one line. */
  ghost predicate Carries(data: array<Byte>, kept: nat, s: seq<Byte>, at: nat)
    reads data
  {
    && data.Length == BUFSIZE + 1 && kept <= at <= |s| && kept < BUFSIZE && NUL !in s
    && (forall k :: 0 <= k < kept ==> data[k] == s[at - kept + k] != NEWLINE)
  }

  /**
   * The inner loop: it prints the lines of the window and returns how many bytes it has kept at the
   * front of the array.
   */
  method ScanWindow(fname: seq<Byte>, pattern: seq<Byte>, data: array<Byte>, last: nat, cnt: nat,
                    ghost s: seq<Byte>, ghost p: nat)
    returns (kept: nat, out: seq<Byte>)
    requires Holds(data, 0, last, s, p) && NUL !in pattern
    requires cnt == 0 ==> p + last == |s| && LineEnd(data[..], 0, last) == last
    requires last == 0 ==> p == |s|
    modifies data
    ensures Carries(data, kept, s, p + last) && (cnt == 0 ==> kept == 0)
    ensures Output(fname, Scanned(s, p, old(data[BUFSIZE]) == NEWLINE), pattern) ==
            out + Output(fname, Scanned(s, p + last - kept, data[BUFSIZE] == NEWLINE), pattern)
  {
    hide Output, Pending, Scanned;
    PendingAtStart(s, p, p + last, data[BUFSIZE] == NEWLINE);
    var lineStart := 0;
    out := [];
    while true
      invariant Holds(data, lineStart, last, s, p) && (lineStart == 0 || lineStart < last)
      invariant cnt == 0 ==> lineStart == 0 && LineEnd(data[..], 0, last) == last
      invariant Output(fname, Scanned(s, p, old(data[BUFSIZE]) == NEWLINE), pattern) ==
                out + Output(fname, Pending(s, p, p + last, p + lineStart, data[BUFSIZE] == NEWLINE), pattern)
      decreases last - lineStart
    {
      var lineEnd := FindLineEnd(data, lineStart, last);
      if Keeps(data, lineStart, lineEnd, cnt) {
        forall m | p + lineStart <= m < p + last ensures s[m] != NEWLINE {
          assert data[..][m - p] == s[p + (m - p)];
        }
        kept := KeepLine(data, lineStart, last, s, p);
        return;
      }
      var printed := PrintTurn(fname, pattern, data, last, lineStart, lineEnd, s, p);
      out := out + printed;
      lineStart := lineEnd + 1;
      if lineStart >= last {
        kept := 0;
        return;
      }
    }
  }

  /** The window after a read: what was carried, then the bytes just read. */
  lemma Refilled(data: array<Byte>, last: nat, cnt: nat, was: seq<Byte>, s: seq<Byte>, at: nat, rest: seq<Byte>)
    requires data.Length == |was| == BUFSIZE + 1 && last < BUFSIZE && last + cnt <= BUFSIZE
    requires data[..] == Overlay(was, last, data[last..last + cnt])
    requires last <= at && NUL !in s && at <= |s|
    requires forall k :: 0 <= k < last ==> was[k] == s[at - last + k] != NEWLINE
    requires s[at..] == data[last..last + cnt] + rest && (last + cnt < BUFSIZE ==> rest == [])
    ensures at + cnt <= |s| && s[at + cnt..] == rest
    ensures Holds(data, 0, last + cnt, s, at - last) && data[BUFSIZE] == was[BUFSIZE]
    ensures cnt == 0 ==> LineEnd(data[..], 0, last + cnt) == last + cnt
  {
    var chunk := data[last..last + cnt];
    assert |s| - at == cnt + |rest|;
    assert s[at + cnt..] == s[at..][cnt..] == rest;
    forall k | 0 <= k < last + cnt ensures data[k] == s[at - last + k] {
      if k < last {
        assert data[k] == data[..][k] == was[k];
      } else {
        assert data[k] == chunk[k - last] == s[at..][k - last];
      }
    }
    assert data[BUFSIZE] == data[..][BUFSIZE];
    if cnt == 0 {
      assert forall k :: 0 <= k < last ==> data[..][k] == was[k];
      LineEndIs(data[..], 0, last, last);
    }
  }

  lemma BesidesItself(s: State, fd: nat)
    ensures Besides(s, s, fd)
  {
  }

  lemma BesidesBoth(s: State, t: State, u: State, fd: nat)
    requires Besides(s, t, fd) && Besides(t, u, fd)
    ensures Besides(s, u, fd)
  {
  }

  /** A slot was used and is closed again; nothing else has changed. */
  ghost predicate Reclosed(s: State, t: State, fd: nat) {
    Besides(s, t, fd) && !t.Entry(s.pid, fd).used
  }

  lemma IsReclosed(s: State, t: State, fd: nat)
    requires Besides(s, t, fd) && !t.Entry(s.pid, fd).used
    ensures Reclosed(s, t, fd)
  {
  }

  /** The read of `do_one_file`: it fills the array behind what was carried. */
  method Refill(k: Kernel, fd: nat, data: array<Byte>, last: nat, ghost s: seq<Byte>, ghost at: nat) returns (cnt: nat)
    requires Streaming(k, fd) && KindAt(k, fd) != Directory
    requires Carries(data, last, s, at) && s[at..] == Rest(k, fd, [])
    modifies k`currDir, k.allPcbs, data
    ensures Streaming(k, fd) && KindAt(k, fd) != Directory
    ensures Besides(old(k.State()), k.State(), fd)
    ensures at + cnt <= |s| && s[at + cnt..] == Rest(k, fd, [])
    ensures Holds(data, 0, last + cnt, s, at - last) && data[BUFSIZE] == old(data[BUFSIZE])
    ensures cnt == 0 ==> at == |s| && LineEnd(data[..], 0, last) == last
    ensures cnt > 0 ==> 0 <= Remaining(k, fd) < old(Remaining(k, fd))
  {
    hide Streaming, Rest, Remaining, LineEnd, Besides;
    ghost var was := data[..];
    forall j | 0 <= j < last ensures was[j] == s[at - last + j] != NEWLINE {
      assert was[j] == data[j];
    }
    cnt := Programs.Read(k, fd, data, last, BUFSIZE - last, []);
    ghost var chunk := data[last..last + cnt];
    assert chunk + [] == chunk;
    assert s[at..] == chunk + Rest(k, fd, []);
    Refilled(data, last, cnt, was, s, at, Rest(k, fd, []));
  }

  /** The outer loop of `do_one_file` on an open file. */
  method ScanFile(k: Kernel, fd: nat, fname: seq<Byte>, pattern: seq<Byte>, data: array<Byte>) returns (out: seq<Byte>)
    requires Streaming(k, fd) && KindAt(k, fd) != Directory && data.Length == BUFSIZE + 1
    requires NUL !in pattern && NUL !in Rest(k, fd, [])
    modifies k`currDir, k.allPcbs, data
    ensures Streaming(k, fd) && KindAt(k, fd) != Directory && Besides(old(k.State()), k.State(), fd)
    ensures out == old(Output(fname, Scanned(Rest(k, fd, []), 0, data[BUFSIZE] == NEWLINE), pattern))
  {
    hide Streaming, Rest, Besides, Remaining, Output, Scanned, LineEnd;
    var last: nat, printed := 0, [];
    out := [];
    ghost var s, at: nat := Rest(k, fd, []), 0;
    BesidesItself(k.State(), fd);
    while true
      invariant Streaming(k, fd) && KindAt(k, fd) != Directory && Besides(old(k.State()), k.State(), fd)
      invariant Carries(data, last, s, at) && s[at..] == Rest(k, fd, [])
      invariant old(Output(fname, Scanned(Rest(k, fd, []), 0, data[BUFSIZE] == NEWLINE), pattern)) ==
                out + Output(fname, Scanned(s, at - last, data[BUFSIZE] == NEWLINE), pattern)
      decreases Remaining(k, fd)
    {
      ghost var before := k.State();
      var cnt := Refill(k, fd, data, last, s, at);
      BesidesBoth(old(k.State()), before, k.State(), fd);
      last, printed := ScanWindow(fname, pattern, data, last + cnt, cnt, s, at - last);
      at := at + cnt;
      out := out + printed;
      if cnt == 0 { break; }
    }
    NothingPrinted(fname, pattern, s, |s|, |s|, false);
  }

  const OPEN_FAILED := "file open failed\n"
  const CLOSE_FAILED := "file close failed\n"

  /**
   * `do_one_file`, with the array it leaves uninitialised as a parameter. The file is text: neither
   * a directory nor with a NUL in it.
   */
  method DoOneFile(k: Kernel, pattern: seq<Byte>, fname: seq<Byte>, data: array<Byte>)
    returns (code: int, out: seq<Byte>)
    requires k.Valid() && data.Length == BUFSIZE + 1 && NUL !in pattern
    requires var o := OpenStep(k.Disk(), k.State(), fname);
             o.ret != -1 ==> o.state.Entry(o.state.pid, o.ret).kind != Directory &&
                             NUL !in Everything(k.Disk(), o.state, o.ret, [])
    modifies k`currDir, k.allPcbs, data
    ensures k.Valid()
    ensures var o := OpenStep(k.Disk(), old(k.State()), fname);
            if o.ret == -1 then k.State() == old(k.State()) else Reclosed(old(k.State()), k.State(), o.ret)
    ensures var o := OpenStep(k.Disk(), old(k.State()), fname);
            if o.ret == -1 then code == -1 && out == Ascii(OPEN_FAILED)
            else code == 0 && out == Output(fname, Scanned(Everything(k.Disk(), o.state, o.ret, []), 0,
                                                           old(data[BUFSIZE]) == NEWLINE), pattern)
  {
    hide Output, Scanned, Besides, Reclosed, Everything;
    ghost var s0 := k.State();
    OpenBesides(k.Disk(), s0, fname);
    var fd := Programs.Open(k, fname);
    if fd == -1 {
      return -1, Ascii(OPEN_FAILED);
    }
    ghost var s1 := k.State();
    out := ScanFile(k, fd, fname, pattern, data);
    ghost var s2 := k.State();
    BesidesBoth(s0, s1, s2, fd);
    CloseBesides(s2, fd);
    var closed := k.SysClose(fd);
    if closed == -1 {
      return -1, out + Ascii(CLOSE_FAILED);
    }
    BesidesBoth(s0, s2, k.State(), fd);
    assert Reclosed(s0, k.State(), fd) by { IsReclosed(s0, k.State(), fd); }
    code := 0;
  }

  /** No line that contains the pattern is longer than the window. */
  ghost predicate ShortMatches(lines: seq<seq<Byte>>, pattern: seq<Byte>) {
    forall line :: line in lines && |line| > BUFSIZE ==> !Matches(line, pattern)
  }

  lemma {:induction false} HitsAreMatchingLines(lines: seq<seq<Byte>>, pattern: seq<Byte>, line: seq<Byte>)
    ensures line in Hits(lines, pattern) <==> line in lines && Matches(line, pattern)
  {
    hide Matches;
    if lines != [] {
      HitsAreMatchingLines(lines[1..], pattern, line);
    }
  }

  lemma {:induction false} PiecesAreShort(s: seq<Byte>, i: nat, j: nat)
    requires j <= |s|
    ensures forall p :: p in Pieces(s, i, j) ==> |p| <= BUFSIZE
    decreases j - i
  {
    hide LineEnd;
    if i < j {
      if LineEnd(s, i, j) - i >= BUFSIZE {
        PiecesAreShort(s, i + BUFSIZE, j);
      } else {
        PiecesAreShort(s, LineEnd(s, i, j) + 1, j);
      }
    }
  }

  /** A part of a line contains no pattern that the line does not contain. */
  lemma PartIsSilent(s: seq<Byte>, i: nat, a: nat, b: nat, e: nat, pattern: seq<Byte>)
    requires i <= a <= b <= e <= |s| && !Matches(s[i..e], pattern)
    ensures !Matches(s[a..b], pattern)
  {
    if Matches(s[a..b], pattern) {
      var k :| 0 <= k < |s[a..b]| && MatchesAt(s[a..b], pattern, k);
      SliceOfSlice(s, a, b, k, k + |pattern|);
      SliceOfSlice(s, i, e, a - i + k, a - i + k + |pattern|);
      assert MatchesAt(s[i..e], pattern, a - i + k);
    }
  }

  /** The hits of a file are the hit of its first line and those of the others. */
  lemma HitsOfLines(s: seq<Byte>, i: nat, j: nat, pattern: seq<Byte>)
    requires i < j <= |s|
    ensures var e := LineEnd(s, i, j);
            Hits(Lines(s, i, j), pattern) ==
            (if Matches(s[i..e], pattern) then [s[i..e]] else []) + Hits(Lines(s, e + 1, j), pattern)
  {
    hide Matches, Hits, LineEnd;
    HitsOfCons(s[i..LineEnd(s, i, j)], Lines(s, LineEnd(s, i, j) + 1, j), pattern);
  }

  lemma ShortMatchesOfLines(s: seq<Byte>, i: nat, j: nat, pattern: seq<Byte>)
    requires i < j <= |s|
    ensures var e := LineEnd(s, i, j);
            ShortMatches(Lines(s, i, j), pattern) <==>
            (e - i > BUFSIZE ==> !Matches(s[i..e], pattern)) && ShortMatches(Lines(s, e + 1, j), pattern)
  {
    hide Matches, LineEnd;
    var e := LineEnd(s, i, j);
    assert Lines(s, i, j) == [s[i..e]] + Lines(s, e + 1, j);
    assert s[i..e] in Lines(s, i, j);
  }

  /** A start in a first line that does not match loses no match. */
  lemma HitsBehind(s: seq<Byte>, i: nat, c: nat, j: nat, pattern: seq<Byte>)
    requires i <= j <= |s| && i < c <= LineEnd(s, i, j) && !Matches(s[i..LineEnd(s, i, j)], pattern)
    ensures Hits(Lines(s, c, j), pattern) == Hits(Lines(s, i, j), pattern)
    ensures ShortMatches(Lines(s, i, j), pattern) ==> ShortMatches(Lines(s, c, j), pattern)
    ensures !Matches(s[i..c], pattern)
  {
    hide Matches, Hits, LineEnd, Lines;
    var e := LineEnd(s, i, j);
    var others := Hits(Lines(s, e + 1, j), pattern);
    LineEndBehind(s, i, c, j);
    PartIsSilent(s, i, i, c, e, pattern);
    PartIsSilent(s, i, c, e, e, pattern);
    HitsOfLines(s, i, j, pattern);
    ShortMatchesOfLines(s, i, j, pattern);
    assert [] + others == others;
    if c < j {
      HitsOfLines(s, c, j, pattern);
      ShortMatchesOfLines(s, c, j, pattern);
    } else {
      NoLines(s, c, j);
      NoLines(s, e + 1, j);
    }
  }

  lemma NoLines(s: seq<Byte>, i: nat, j: nat)
    requires j <= i && j <= |s|
    ensures Lines(s, i, j) == [] && Pieces(s, i, j) == []
  {
  }

  /** The hits of the pieces, one line or one full window at a time. */
  lemma HitsOfPieces(s: seq<Byte>, i: nat, j: nat, pattern: seq<Byte>)
    requires i < j <= |s|
    ensures var e := LineEnd(s, i, j);
            var c := if e - i >= BUFSIZE then i + BUFSIZE else e;
            Hits(Pieces(s, i, j), pattern) ==
            (if Matches(s[i..c], pattern) then [s[i..c]] else []) +
            Hits(Pieces(s, if e - i >= BUFSIZE then c else e + 1, j), pattern)
  {
    hide Matches, Hits, LineEnd;
    var e := LineEnd(s, i, j);
    if e - i >= BUFSIZE {
      HitsOfCons(s[i..i + BUFSIZE], Pieces(s, i + BUFSIZE, j), pattern);
    } else {
      HitsOfCons(s[i..e], Pieces(s, e + 1, j), pattern);
    }
  }

  /** Behind a line that exactly fills the window the scan meets an empty line, which is silent. */
  lemma HitsOfEmptyPiece(s: seq<Byte>, e: nat, j: nat, pattern: seq<Byte>)
    requires e <= j <= |s| && (e < j ==> s[e] == NEWLINE)
    ensures Hits(Pieces(s, e, j), pattern) == Hits(Pieces(s, e + 1, j), pattern)
  {
    hide Matches, Hits;
    if e < j {
      HitsOfPieces(s, e, j, pattern);
      HitsOfNothing(pattern);
      assert LineEnd(s, e, j) == e && s[e..e] == [];
      assert [] + Hits(Pieces(s, e + 1, j), pattern) == Hits(Pieces(s, e + 1, j), pattern);
    }
  }

  /** The window finds the matching lines if none of them is longer than 1024 bytes. */
  lemma {:induction false} PiecesFindLines(s: seq<Byte>, i: nat, j: nat, pattern: seq<Byte>)
    requires j <= |s| && ShortMatches(Lines(s, i, j), pattern)
    ensures Hits(Pieces(s, i, j), pattern) == Hits(Lines(s, i, j), pattern)
    decreases j - i
  {
    hide Matches, Hits, LineEnd, Lines, Pieces;
    if i >= j {
      NoLines(s, i, j);
      return;
    }
    var e := LineEnd(s, i, j);
    HitsOfPieces(s, i, j, pattern);
    ShortMatchesOfLines(s, i, j, pattern);
    HitsOfLines(s, i, j, pattern);
    if e - i > BUFSIZE {
      HitsBehind(s, i, i + BUFSIZE, j, pattern);
      PiecesFindLines(s, i + BUFSIZE, j, pattern);
      assert [] + Hits(Pieces(s, i + BUFSIZE, j), pattern) == Hits(Pieces(s, i + BUFSIZE, j), pattern);
    } else {
      PiecesFindLines(s, e + 1, j, pattern);
      HitsOfEmptyPiece(s, e, j, pattern);
    }
  }

  /** ... and only then. */
  lemma PiecesFindLinesExactly(s: seq<Byte>, pattern: seq<Byte>)
    ensures Hits(Pieces(s, 0, |s|), pattern) == Hits(Lines(s, 0, |s|), pattern) <==>
            ShortMatches(Lines(s, 0, |s|), pattern)
  {
    hide Matches, Hits, LineEnd, Lines, Pieces;
    if ShortMatches(Lines(s, 0, |s|), pattern) {
      PiecesFindLines(s, 0, |s|, pattern);
    } else {
      var line :| line in Lines(s, 0, |s|) && |line| > BUFSIZE && Matches(line, pattern);
      HitsAreMatchingLines(Lines(s, 0, |s|), pattern, line);
      HitsAreMatchingLines(Pieces(s, 0, |s|), pattern, line);
      PiecesAreShort(s, 0, |s|);
    }
  }

  /** Where a stale newline cuts the file: at the end of the first window that does not end in a newline. */
  function CutAt(s: seq<Byte>, i: nat): (c: nat)
    requires i <= |s|
    ensures i <= c <= |s| && (c < |s| ==> c > 0 && s[c - 1] != NEWLINE)
    decreases |s| - i
  {
    if i + BUFSIZE > |s| then |s|
    else if s[i + BUFSIZE - 1] == NEWLINE then CutAt(s, i + BUFSIZE)
    else i + BUFSIZE
  }

  /** The line of `s[i..]` that position `c` lies in or ends. */
  function LineAround(s: seq<Byte>, i: nat, c: nat): seq<Byte>
    requires i <= c <= |s|
    decreases c - i
  {
    var e := LineEnd(s, i, |s|);
    if c <= e then s[i..e] else LineAround(s, e + 1, c)
  }

  /** A cut with a part of one line on both sides loses nothing if that line does not match. */
  predicate CutIsHarmless(s: seq<Byte>, i: nat, c: nat, pattern: seq<Byte>)
    requires i <= c <= |s|
  {
    i < c < |s| && s[c - 1] != NEWLINE && s[c] != NEWLINE ==> !Matches(LineAround(s, i, c), pattern)
  }

  /** Two proper parts of a line never give the same hits as the line, unless it does not match. */
  lemma BothParts(s: seq<Byte>, i: nat, c: nat, e: nat, others: seq<seq<Byte>>, pattern: seq<Byte>)
    requires i < c < e <= |s|
    ensures var front := if Matches(s[i..c], pattern) then [s[i..c]] else [];
            var back := if Matches(s[c..e], pattern) then [s[c..e]] else [];
            var whole := if Matches(s[i..e], pattern) then [s[i..e]] else [];
            front + (back + others) == whole + others <==> !Matches(s[i..e], pattern)
  {
    hide Matches;
    if !Matches(s[i..e], pattern) {
      PartIsSilent(s, i, i, c, e, pattern);
      PartIsSilent(s, i, c, e, e, pattern);
      assert [] + ([] + others) == [] + others;
    } else {
      var front := if Matches(s[i..c], pattern) then [s[i..c]] else [];
      var back := if Matches(s[c..e], pattern) then [s[c..e]] else [];
      var parts := front + back;
      var line := s[i..e];
      assert front + (back + others) == parts + others;
      assert ([line] + others)[0] == line;
      if |parts| == 1 {
        assert (parts + others)[0] == parts[0];
        assert |parts[0]| < |line|;
      }
    }
  }

  /** The matches on both sides of a cut in the first line, against the match of the line. */
  lemma CutFirstLine(s: seq<Byte>, i: nat, c: nat, pattern: seq<Byte>)
    requires i < c < |s| && c <= LineEnd(s, i, |s|)
    ensures Hits(Lines(s, i, c), pattern) + Hits(Lines(s, c, |s|), pattern) == Hits(Lines(s, i, |s|), pattern) <==>
            (c < LineEnd(s, i, |s|) ==> !Matches(s[i..LineEnd(s, i, |s|)], pattern))
    ensures ShortMatches(Lines(s, i, |s|), pattern) ==>
            ShortMatches(Lines(s, i, c), pattern) && ShortMatches(Lines(s, c, |s|), pattern)
  {
    hide Matches, Hits, LineEnd, Lines;
    var e := LineEnd(s, i, |s|);
    var others := Hits(Lines(s, e + 1, |s|), pattern);
    LineEndBefore(s, i, c, |s|);
    LineEndBehind(s, i, c, |s|);
    HitsOfLines(s, i, |s|, pattern);
    HitsOfLines(s, i, c, pattern);
    HitsOfLines(s, c, |s|, pattern);
    ShortMatchesOfLines(s, i, |s|, pattern);
    ShortMatchesOfLines(s, i, c, pattern);
    ShortMatchesOfLines(s, c, |s|, pattern);
    NoLines(s, c + 1, c);
    HitsOfNothing(pattern);
    if !Matches(s[i..e], pattern) {
      PartIsSilent(s, i, i, c, e, pattern);
      PartIsSilent(s, i, c, e, e, pattern);
    }
    if c < e {
      BothParts(s, i, c, e, others, pattern);
    } else {
      assert s[c..e] == [];
    }
  }

  /** Searching the two parts of a cut file gives the same exactly when the cut is harmless. */
  lemma {:induction false} CutFindsLines(s: seq<Byte>, i: nat, c: nat, pattern: seq<Byte>)
    requires i <= c <= |s|
    ensures Hits(Lines(s, i, c), pattern) + Hits(Lines(s, c, |s|), pattern) == Hits(Lines(s, i, |s|), pattern) <==>
            CutIsHarmless(s, i, c, pattern)
    ensures ShortMatches(Lines(s, i, |s|), pattern) ==>
            ShortMatches(Lines(s, i, c), pattern) && ShortMatches(Lines(s, c, |s|), pattern)
    decreases c - i
  {
    hide Matches, Hits, Lines;
    var e, all := LineEnd(s, i, |s|), Hits(Lines(s, i, |s|), pattern);
    HitsOfNothing(pattern);
    NoLines(s, c, c);
    NoLines(s, c, i);
    NoLines(s, |s|, |s|);
    if c == i {
      assert [] + all == all;
    } else if c == |s| {
      assert all + [] == all;
    } else if c <= e {
      CutFirstLine(s, i, c, pattern);
    } else {
      LineEndBefore(s, i, c, |s|);
      CutFindsLines(s, e + 1, c, pattern);
      HitsOfLines(s, i, |s|, pattern);
      HitsOfLines(s, i, c, pattern);
      ShortMatchesOfLines(s, i, |s|, pattern);
      ShortMatchesOfLines(s, i, c, pattern);
      var first := if Matches(s[i..e], pattern) then [s[i..e]] else [];
      SamePrefix(first, Hits(Lines(s, e + 1, c), pattern), Hits(Lines(s, c, |s|), pattern),
                 Hits(Lines(s, e + 1, |s|), pattern));
    }
  }

  lemma SamePrefix<T>(p: seq<T>, a: seq<T>, b: seq<T>, c: seq<T>)
    ensures (p + a) + b == p + c <==> a + b == c
  {
    assert (p + a) + b == p + (a + b);
    assert (p + (a + b))[|p|..] == a + b && (p + c)[|p|..] == c;
  }

  /** A stretch that ends in a newline and the rest are scanned as they would be together. */
  lemma {:induction false} PiecesOfWholeLines(s: seq<Byte>, i: nat, c: nat, j: nat)
    requires i < c <= j <= |s| && s[c - 1] == NEWLINE
    ensures Pieces(s, i, c) + Pieces(s, c, j) == Pieces(s, i, j)
    decreases c - i
  {
    hide LineEnd, Pieces;
    var e := LineEnd(s, i, j);
    assert e < c;
    LineEndBefore(s, i, c, j);
    PiecesStep(s, i, c);
    PiecesStep(s, i, j);
    var full := e - i >= BUFSIZE;
    var piece, n := [s[i..if full then i + BUFSIZE else e]], if full then i + BUFSIZE else e + 1;
    var front, back, rest := Pieces(s, n, c), Pieces(s, c, j), Pieces(s, n, j);
    if n < c {
      PiecesOfWholeLines(s, n, c, j);
    } else {
      NoLines(s, n, c);
    }
    assert front + back == rest;
    assert (piece + front) + back == piece + (front + back);
  }

  lemma PiecesStep(s: seq<Byte>, i: nat, j: nat)
    requires i < j <= |s|
    ensures var full := LineEnd(s, i, j) - i >= BUFSIZE;
            Pieces(s, i, j) == [s[i..if full then i + BUFSIZE else LineEnd(s, i, j)]] +
                               Pieces(s, if full then i + BUFSIZE else LineEnd(s, i, j) + 1, j)
  {
    hide LineEnd;
  }

  /** With a stale newline the file is scanned like two files, cut at the first unfinished window. */
  lemma {:induction false} ScannedIsCut(s: seq<Byte>, i: nat)
    requires i <= |s|
    ensures Scanned(s, i, true) == Pieces(s, i, CutAt(s, i)) + Pieces(s, CutAt(s, i), |s|)
    decreases |s| - i
  {
    hide Pieces;
    var c, m := CutAt(s, i), i + BUFSIZE;
    if m > |s| {
      NoLines(s, |s|, |s|);
      assert Pieces(s, i, |s|) + [] == Pieces(s, i, |s|);
    } else if s[m - 1] == NEWLINE {
      ScannedIsCut(s, m);
      PiecesOfWholeLines(s, i, m, c);
      ConcatAssociates(Pieces(s, i, m), Pieces(s, m, c), Pieces(s, c, |s|));
    }
  }

  /**
   * `do_one_file` prints exactly the matching lines, in order and once each, if and only if none of
   * them is longer than 1024 bytes and none of them lies across the cut of a stale newline.
   */
  lemma GrepFindsLinesExactly(s: seq<Byte>, stale: bool, pattern: seq<Byte>)
    ensures Hits(Scanned(s, 0, stale), pattern) == Hits(Lines(s, 0, |s|), pattern) <==>
            ShortMatches(Lines(s, 0, |s|), pattern) && (stale ==> CutIsHarmless(s, 0, CutAt(s, 0), pattern))
  {
    hide Matches, Hits, Lines, Pieces, LineEnd, CutAt, CutIsHarmless;
    if !stale {
      PiecesFindLinesExactly(s, pattern);
      assert Scanned(s, 0, false) == Pieces(s, 0, |s|);
    } else {
      var c := CutAt(s, 0);
      ScannedIsCut(s, 0);
      HitsOfConcat(Pieces(s, 0, c), Pieces(s, c, |s|), pattern);
      CutFindsLines(s, 0, c, pattern);
      if ShortMatches(Lines(s, 0, |s|), pattern) {
        PiecesFindLines(s, 0, c, pattern);
        PiecesFindLines(s, c, |s|, pattern);
      } else {
        var line :| line in Lines(s, 0, |s|) && |line| > BUFSIZE && Matches(line, pattern);
        HitsAreMatchingLines(Lines(s, 0, |s|), pattern, line);
        HitsAreMatchingLines(Pieces(s, 0, c), pattern, line);
        HitsAreMatchingLines(Pieces(s, c, |s|), pattern, line);
        PiecesAreShort(s, 0, c);
        PiecesAreShort(s, c, |s|);
      }
    }
  }
}
