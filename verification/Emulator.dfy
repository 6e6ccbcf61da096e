/** The loops of `ece391emulate.c` that cut a command up in its buffer and put arguments together in another. */
module Emulator {
  import opened Bytes
  import opened Kernel
  import opened Numbers
  import opened Arguments

  /** From `scan` to its end the buffer still holds `t`. */
  predicate Unread(buf: seq<Byte>, t: seq<Byte>, scan: nat) {
    scan <= |t| < |buf| && forall p :: scan <= p <= |t| ==> buf[p] == CharAt(t, p)
  }

  /** The first pointers lead to the strings `ws`, all of which end at or before `scan`. */
  ghost predicate Points(buf: seq<Byte>, args: seq<int>, ws: seq<seq<Byte>>, scan: nat) {
    && |ws| <= |args|
    && forall k :: 0 <= k < |ws| ==> 0 <= args[k] <= scan - |ws[k]| && StringAt(buf, args[k], ws[k])
  }

  method StrCpy(buf: array<Byte>, base: nat, text: seq<Byte>)
    requires NulFree(text) && base + |text| < buf.Length
    modifies buf
    ensures StringAt(buf[..], base, text)
    ensures forall i :: 0 <= i < buf.Length && !(base <= i <= base + |text|) ==> buf[i] == old(buf[i])
  {
    for i := 0 to |text|
      invariant forall j :: base <= j < base + i ==> buf[j] == text[j - base]
      invariant forall j :: 0 <= j < buf.Length && !(base <= j < base + i) ==> buf[j] == old(buf[j])
    {
      buf[base + i] := text[i];
    }
    buf[base + |text|] := NUL;
  }

  method SkipBlanks(buf: array<Byte>, from: nat, ghost t: seq<Byte>) returns (scan: nat)
    requires Unread(buf[..], t, from)
    ensures scan == AfterSpaces(t, from)
  {
    scan := from;
    while buf[scan] == SPACE
      invariant from <= scan <= |t| && AfterSpaces(t, from) == AfterSpaces(t, scan)
      decreases |t| - scan
    {
      scan := scan + 1;
    }
  }

  method FindEnd(buf: array<Byte>, from: nat, ghost t: seq<Byte>) returns (scan: nat)
    requires Unread(buf[..], t, from)
    ensures scan == WordEnd(t, from)
  {
    scan := from;
    while buf[scan] != NUL && buf[scan] != SPACE && buf[scan] != NEWLINE
      invariant from <= scan <= |t| && WordEnd(t, from) == WordEnd(t, scan)
      decreases |t| - scan
    {
      scan := scan + 1;
    }
  }

  /** Ending a string at the scan pointer spoils none of the strings before it. */
  lemma CutKeepsPoints(buf: seq<Byte>, args: seq<int>, ws: seq<seq<Byte>>, scan: nat, now: seq<Byte>)
    requires Points(buf, args, ws, scan) && scan < |buf| && now == buf[scan := NUL]
    ensures Points(now, args, ws, scan)
  {
  }

  /** A word of the text, ended in place, is one string more. */
  lemma OneMore(buf: seq<Byte>, args: seq<int>, ws: seq<seq<Byte>>, t: seq<Byte>, a: nat, b: nat)
    requires Points(buf, args, ws, a) && |ws| < |args| && args[|ws|] == a
    requires a <= b <= |t| < |buf| && buf[b] == NUL && NulFree(t) && forall p :: a <= p < b ==> buf[p] == t[p]
    ensures Points(buf, args, ws + [t[a..b]], b)
  {
  }

  lemma MoreArgs(buf: seq<Byte>, args: seq<int>, ws: seq<seq<Byte>>, scan: nat, later: nat, now: seq<int>)
    requires Points(buf, args, ws, scan) && scan <= later && |now| == |args|
    requires forall k :: 0 <= k < |ws| ==> now[k] == args[k]
    ensures Points(buf, now, ws, later)
  {
  }

  lemma MoveOver(ws: seq<seq<Byte>>, w: seq<Byte>, rest: seq<seq<Byte>>)
    ensures ws + ([w] + rest) == (ws + [w]) + rest
  {
  }

  lemma NoPoints(buf: seq<Byte>, args: seq<int>)
    ensures Points(buf, args, [], 0)
  {
  }

  lemma NoMoreWords(t: seq<Byte>, i: nat)
    requires i <= |t| && NulFree(t)
    ensures var a := AfterSpaces(t, i);
            CharAt(t, a) == NUL || CharAt(t, a) == NEWLINE ==> Words(t, i) == []
  {
  }

  lemma FewArguments(command: seq<Byte>)
    requires NulFree(command) && |command| <= MAX_COMMAND_LENGTH
    ensures |ArgumentsOf(command)| < ARGS
  {
    var t := Path(command);
    var e := WordEnd(t, 2);
    if e < |t| { WordsArePlain(t, e + 1); }
  }

  /** One argument at `scan`: its pointer is stored and its end cut off. */
  method TakeArgument(buf: array<Byte>, args: array<int>, from: nat, n: nat,
                      ghost t: seq<Byte>, ghost ws: seq<seq<Byte>>)
    returns (scan: nat)
    requires Unread(buf[..], t, from) && NulFree(t) && from < |t| && !EndsWord(t[from])
    requires Points(buf[..], args[..], ws, from) && n == |ws| < args.Length
    modifies buf, args
    ensures var b := WordEnd(t, from);
            && from < b && scan == (if b < |t| then b + 1 else b)
            && Points(buf[..], args[..], ws + [t[from..b]], scan)
    ensures Unread(buf[..], t, scan)
  {
    hide Points;
    args[n] := from;
    MoreArgs(old(buf[..]), old(args[..]), ws, from, from, args[..]);
    scan := FindEnd(buf, from, t);
    ghost var b := scan;
    MoreArgs(buf[..], args[..], ws, from, b, args[..]);
    CutKeepsPoints(buf[..], args[..], ws, b, buf[..][b := NUL]);
    if buf[scan] != NUL {
      buf[scan] := NUL;
      scan := scan + 1;
    }
    assert buf[..] == old(buf[..])[b := NUL];
    OneMore(buf[..], args[..], ws, t, from, b);
    MoreArgs(buf[..], args[..], ws + [t[from..b]], b, scan, args[..]);
  }

  /** The loop over the arguments. */
  method ParseArguments(buf: array<Byte>, args: array<int>, from: nat, ghost t: seq<Byte>, ghost ws: seq<seq<Byte>>)
    returns (n: nat)
    requires Unread(buf[..], t, from) && NulFree(t) && Points(buf[..], args[..], ws, from) && |ws| == 1
    requires |ws| + |Words(t, from)| < args.Length
    modifies buf, args
    ensures n == |ws| + |Words(t, from)| && Points(buf[..], args[..], ws + Words(t, from), |t|)
  {
    hide Points, Words;
    ghost var done := ws;
    var scan := from;
    n := 1;
    while true
      invariant Unread(buf[..], t, scan) && Points(buf[..], args[..], done, scan) && n == |done|
      invariant done + Words(t, scan) == ws + Words(t, from)
      invariant n + |Words(t, scan)| < args.Length
      decreases |t| - scan
    {
      ghost var start := scan;
      scan := SkipBlanks(buf, scan, t);
      MoreArgs(buf[..], args[..], done, start, scan, args[..]);
      NoMoreWords(t, start);
      if buf[scan] == NUL || buf[scan] == NEWLINE {
        CutKeepsPoints(buf[..], args[..], done, scan, buf[..][scan := NUL]);
        buf[scan] := NUL;
        MoreArgs(buf[..], args[..], done, scan, |t|, args[..]);
        assert done + [] == done;
        break;
      }
      var a := scan;
      ghost var b := WordEnd(t, a);
      WordsUnfold(t, start);
      scan := TakeArgument(buf, args, a, n, t, done);
      MoveOver(done, t[a..b], if b < |t| then Words(t, b + 1) else []);
      done := done + [t[a..b]];
      n := n + 1;
      NoMoreWords(t, |t|);
    }
  }

  /** The text to be cut. */
  method CopyPath(command: seq<Byte>, buf: array<Byte>)
    requires NulFree(command) && |command| + 2 < buf.Length
    modifies buf
    ensures Unread(buf[..], Path(command), 0)
  {
    buf[0] := DOT;
    buf[1] := SLASH;
    StrCpy(buf, 2, command);
  }

  /** `ece391_execute` up to its fork: the argument vector, cut in place. */
  method Tokenize(command: seq<Byte>, buf: array<Byte>, args: array<int>) returns (n: int)
    requires NulFree(command) && buf.Length == 1026 && args.Length == ARGS
    modifies buf, args
    ensures n == -1 <==> |command| > MAX_COMMAND_LENGTH
    ensures n != -1 ==> n == |ArgumentsOf(command)| < ARGS && args[n] == NULL
    ensures n != -1 ==> Points(buf[..], args[..], ArgumentsOf(command), |command| + 2)
  {
    hide Words, Points, ArgumentsOf, WordEnd;
    if MAX_COMMAND_LENGTH < |command| { return -1; }
    FewArguments(command);
    ghost var t := Path(command);
    CopyPath(command, buf);
    var scan := FindEnd(buf, 2, t);
    args[0] := 0;
    n := 1;
    ghost var was, ws := buf[..], [t[..scan]];
    FirstArgument(command, was, args[..], scan);
    if buf[scan] != NUL {
      buf[scan] := NUL;
      MoreArgs(buf[..], args[..], ws, scan, scan + 1, args[..]);
      n := ParseArguments(buf, args, scan + 1, t, ws);
    } else {
      assert was[scan := NUL] == buf[..];
    }
    ghost var stored := args[..];
    args[n] := NULL;
    MoreArgs(buf[..], stored, ArgumentsOf(command), |t|, |t|, args[..]);
  }

  /** With its end cut off, the path is the first argument and the rest of the text still follows. */
  lemma FirstArgument(command: seq<Byte>, buf: seq<Byte>, args: seq<int>, scan: nat)
    requires NulFree(command) && Unread(buf, Path(command), 0) && scan == WordEnd(Path(command), 2)
    requires |args| > 0 && args[0] == 0
    ensures var t := Path(command);
            && NulFree(t) && 2 <= scan <= |t| && (buf[scan] == NUL <==> scan == |t|)
            && Points(buf[scan := NUL], args, [t[..scan]], scan)
            && (scan < |t| ==> Unread(buf[scan := NUL], t, scan + 1)
                               && ArgumentsOf(command) == [t[..scan]] + Words(t, scan + 1))
            && (scan == |t| ==> ArgumentsOf(command) == [t[..scan]])
  {
    hide Words, Points;
    var t := Path(command);
    assert NulFree(t);
    NoPoints(buf[scan := NUL], args);
    OneMore(buf[scan := NUL], args, [], t, 0, scan);
    assert [] + [t[0..scan]] == [t[..scan]] && [t[..scan]] + [] == [t[..scan]];
  }

  /** The arguments without the program. */
  function Tail(argv: seq<seq<Byte>>): seq<seq<Byte>> {
    if argv == [] then [] else argv[1..]
  }

  /** The text in front of word `k`. */
  function Head(ws: seq<seq<Byte>>, k: nat): (r: seq<Byte>)
    requires k < |ws|
    ensures Join(ws, k + 1) == r + ws[k]
  {
    if k == 0 then [] else Join(ws, k) + [SPACE]
  }

  /** Some first words fill `n` bytes to the last one, so that their terminator lands behind them. */
  ghost predicate Spills(ws: seq<seq<Byte>>, n: int) {
    exists k :: 1 <= k <= |ws| && |Join(ws, k)| == n
  }

  lemma {:induction false} JoinGrows(ws: seq<seq<Byte>>, j: nat, k: nat)
    requires 1 <= j <= k <= |ws|
    ensures j < k ==> |Join(ws, j)| < |Join(ws, k)|
    decreases k - j
  {
    if j < k - 1 { JoinGrows(ws, j, k - 1); }
  }

  lemma SpillsAt(ws: seq<seq<Byte>>, k: nat, n: int)
    requires k < |ws| && (k > 0 ==> |Join(ws, k)| < n)
    ensures n < |Join(ws, k + 1)| ==> !Spills(ws, n) && n < |Join(ws, |ws|)|
    ensures n == |Join(ws, k + 1)| ==> Spills(ws, n) && n <= |Join(ws, |ws|)|
    ensures k + 1 == |ws| && |Join(ws, k + 1)| < n ==> !Spills(ws, n)
  {
    forall j | 1 <= j <= |ws|
      ensures j <= k ==> |Join(ws, j)| < n
      ensures k < j ==> |Join(ws, k + 1)| <= |Join(ws, j)|
    {
      if j <= k { JoinGrows(ws, j, k); } else { JoinGrows(ws, k + 1, j); }
    }
  }

  lemma NothingToJoin(n: int)
    ensures Join([], 0) == [] && !Spills([], n)
  {
  }

  /**
   * `ece391_getargs`: it succeeds exactly when the words, single spaces and the terminator fit into `nbytes`,
   * and it writes one byte behind them exactly when some first words fill `nbytes`.
   */
  method GetArgs(argv: seq<seq<Byte>>, buf: array<Byte>, nbytes: int) returns (r: int)
    requires nbytes < buf.Length && forall k :: 0 <= k < |argv| ==> NulFree(argv[k])
    modifies buf
    ensures var ws := Tail(argv);
            var text := Join(ws, |ws|);
            && r == (if |text| < nbytes then 0 else -1)
            && (r == 0 ==> StringAt(buf[..], 0, text))
            && (r == 0 ==> forall i :: |text| < i < buf.Length ==> buf[i] == old(buf[i]))
            && (forall i :: 0 <= i < buf.Length && nbytes < i ==> buf[i] == old(buf[i]))
            && (0 <= nbytes ==> buf[nbytes] == if Spills(ws, nbytes) then NUL else old(buf[nbytes]))
  {
    hide Spills, Join;
    ghost var ws := Tail(argv);
    var idx, pos, left := 1, 0, nbytes;
    NothingToJoin(nbytes);
    while idx < |argv|
      invariant 1 <= idx && pos + left == nbytes
      invariant idx < |argv| ==> pos == |Head(ws, idx - 1)| && (idx > 1 ==> |Join(ws, idx - 1)| < nbytes)
      invariant idx < |argv| ==> forall i :: 0 <= i < pos ==> buf[i] == Head(ws, idx - 1)[i]
      invariant idx < |argv| ==> NulFree(Head(ws, idx - 1))
      invariant idx >= |argv| ==> ws == [] && pos == 0
      invariant forall i :: pos <= i < buf.Length ==> buf[i] == old(buf[i])
    {
      var len := |argv[idx]|;
      SpillsAt(ws, idx - 1, nbytes);
      if len > left { return -1; }
      StrCpy(buf, pos, argv[idx]);
      pos := pos + len;
      left := left - len;
      idx := idx + 1;
      if idx >= |argv| { break; }
      if left < 1 { return -1; }
      buf[pos] := SPACE;
      pos := pos + 1;
      left := left - 1;
    }
    if left < 1 { return -1; }
    buf[pos] := NUL;
    return 0;
  }
}
