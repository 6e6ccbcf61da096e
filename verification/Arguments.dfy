/** Cutting a command into words in place and joining them again (`ece391emulate.c`). */
module Arguments {
  import opened Bytes
  import opened Kernel
  import opened Numbers

  const SLASH: Byte := 47
  const MAX_COMMAND_LENGTH := 1023
  const ARGS := 1024
  const NULL := -1

  /** The words of `s` from `i` on: spaces are skipped, and a line end where a word should start ends it all. */
  function Words(s: seq<Byte>, i: nat): seq<seq<Byte>>
    requires i <= |s|
    decreases |s| - i
  {
    var a := AfterSpaces(s, i);
    if a == |s| || s[a] == NEWLINE then []
    else
      var b := WordEnd(s, a);
      [s[a..b]] + if b < |s| then Words(s, b + 1) else []
  }

  /** The text that `ece391_execute` works on. */
  function Path(command: seq<Byte>): seq<Byte> {
    [DOT, SLASH] + command
  }

  /** The argument vector of a command: the path of the program, which may be empty, and the words after it. */
  function ArgumentsOf(command: seq<Byte>): seq<seq<Byte>> {
    var t := Path(command);
    var e := WordEnd(t, 2);
    [t[..e]] + if e < |t| then Words(t, e + 1) else []
  }

  /** What a word may be: not empty and without the characters that end one. */
  predicate Plain(w: seq<Byte>) {
    w != [] && forall i :: 0 <= i < |w| ==> !EndsWord(w[i])
  }

  predicate OneLine(s: seq<Byte>) {
    forall i :: 0 <= i < |s| ==> s[i] != NEWLINE && s[i] != NUL
  }

  /** The first `k` words with single spaces between them. */
  function Join(ws: seq<seq<Byte>>, k: nat): (r: seq<Byte>)
    requires k <= |ws|
  {
    if k == 0 then [] else if k == 1 then ws[0] else Join(ws, k - 1) + [SPACE] + ws[k - 1]
  }

  /** A scan yields plain words, at most one for every two characters. */
  lemma {:induction false} WordsArePlain(s: seq<Byte>, i: nat)
    requires i <= |s| && NulFree(s)
    ensures forall k :: 0 <= k < |Words(s, i)| ==> Plain(Words(s, i)[k])
    ensures 2 * |Words(s, i)| <= |s| - i + 1
    decreases |s| - i
  {
    hide Words, Plain;
    var a := AfterSpaces(s, i);
    if a < |s| && s[a] != NEWLINE {
      var b := WordEnd(s, a);
      var rest := if b < |s| then Words(s, b + 1) else [];
      SliceIsPlain(s, a, b);
      if b < |s| { WordsArePlain(s, b + 1); }
      WordsUnfold(s, i);
      assert forall k :: 0 < k < |Words(s, i)| ==> Words(s, i)[k] == rest[k - 1];
    } else {
      NoWordHere(s, i);
    }
  }

  lemma SliceIsPlain(s: seq<Byte>, a: nat, b: nat)
    requires a < b <= |s| && forall k :: a <= k < b ==> !EndsWord(s[k])
    ensures Plain(s[a..b])
  {
  }

  lemma NoWordHere(s: seq<Byte>, i: nat)
    requires i <= |s|
    ensures var a := AfterSpaces(s, i);
            a == |s| || s[a] == NEWLINE ==> Words(s, i) == []
  {
  }

  lemma WordEndIs(s: seq<Byte>, i: nat, r: nat)
    requires i <= r <= |s| && EndsWord(CharAt(s, r)) && forall k :: i <= k < r ==> !EndsWord(s[k])
    ensures WordEnd(s, i) == r
  {
  }

  lemma AfterSpacesIs(s: seq<Byte>, i: nat, r: nat)
    requires i <= r <= |s| && CharAt(s, r) != SPACE && forall k :: i <= k < r ==> s[k] == SPACE
    ensures AfterSpaces(s, i) == r
  {
  }

  lemma {:induction false} WordAlone(w: seq<Byte>)
    requires Plain(w)
    ensures Words(w, 0) == [w] && OneLine(w)
  {
    assert AfterSpaces(w, 0) == 0;
    WordEndIs(w, 0, |w|);
    assert w[0..|w|] == w;
  }

  /** `t` is `s`, a space and `w`. */
  predicate Behind(s: seq<Byte>, w: seq<Byte>, t: seq<Byte>) {
    && |t| == |s| + 1 + |w| && t[|s|] == SPACE
    && (forall k :: 0 <= k < |s| ==> t[k] == s[k])
    && forall k :: |s| < k < |t| ==> t[k] == w[k - |s| - 1]
  }

  /** In front of the added word nothing changes. */
  lemma SameWord(s: seq<Byte>, w: seq<Byte>, t: seq<Byte>, i: nat)
    requires Behind(s, w, t) && i <= |s| && AfterSpaces(s, i) < |s|
    ensures var a := AfterSpaces(s, i);
            AfterSpaces(t, i) == a && WordEnd(t, a) == WordEnd(s, a) && t[a..WordEnd(t, a)] == s[a..WordEnd(s, a)]
  {
    var a := AfterSpaces(s, i);
    AfterSpacesIs(t, i, a);
    WordEndIs(t, a, WordEnd(s, a));
  }

  /** From the end of `s` on there is just the added word. */
  lemma LastWord(s: seq<Byte>, w: seq<Byte>, t: seq<Byte>, i: nat)
    requires Behind(s, w, t) && Plain(w) && i <= |s| + 1
    requires forall k :: i <= k < |s| ==> s[k] == SPACE
    ensures Words(t, i) == [w]
  {
    assert t[|s| + 1] == w[0];
    AfterSpacesIs(t, i, |s| + 1);
    WordEndIs(t, |s| + 1, |t|);
    assert t[|s| + 1..|t|] == w;
  }

  /** A word added behind a space is one word more. */
  lemma {:induction false} WordBehind(s: seq<Byte>, w: seq<Byte>, t: seq<Byte>, i: nat)
    requires i <= |s| && OneLine(s) && Plain(w) && Behind(s, w, t)
    ensures Words(t, i) == Words(s, i) + [w]
    decreases |s| - i
  {
    hide Plain, Behind, Words;
    NoWordHere(s, i);
    var a := AfterSpaces(s, i);
    if a == |s| {
      LastWord(s, w, t, i);
    } else {
      SameWord(s, w, t, i);
      var b := WordEnd(s, a);
      BehindIsLonger(s, w, t);
      var rest := if b < |s| then Words(s, b + 1) else [];
      if b < |s| {
        WordBehind(s, w, t, b + 1);
      } else {
        LastWord(s, w, t, b + 1);
      }
      assert Words(t, b + 1) == rest + [w];
      WordsUnfold(s, i);
      WordsUnfold(t, i);
      Regroup(s[a..b], rest, w);
    }
  }

  lemma WordsUnfold(s: seq<Byte>, i: nat)
    requires i <= |s|
    ensures var a := AfterSpaces(s, i);
            a < |s| && s[a] != NEWLINE ==>
              var b := WordEnd(s, a);
              Words(s, i) == [s[a..b]] + if b < |s| then Words(s, b + 1) else []
  {
  }

  lemma Regroup(x: seq<Byte>, ws: seq<seq<Byte>>, w: seq<Byte>)
    ensures [x] + (ws + [w]) == ([x] + ws) + [w]
  {
  }

  lemma BehindIsLonger(s: seq<Byte>, w: seq<Byte>, t: seq<Byte>)
    requires Behind(s, w, t)
    ensures |t| > |s| && forall k :: 0 <= k < |s| ==> t[k] == s[k]
  {
  }

  /** Joining words with single spaces and cutting the text again gives back the words. */
  lemma {:induction false} JoinThenSplit(ws: seq<seq<Byte>>, k: nat)
    requires k <= |ws| && forall j :: 0 <= j < |ws| ==> Plain(ws[j])
    ensures OneLine(Join(ws, k)) && Words(Join(ws, k), 0) == ws[..k]
  {
    hide Words, Plain, OneLine, Behind;
    if k == 0 {
      NoWords();
    } else {
      assert ws[..k] == ws[..k - 1] + [ws[k - 1]];
      WordAlone(ws[k - 1]);
      if k > 1 {
        JoinThenSplit(ws, k - 1);
        JoinIsBehind(Join(ws, k - 1), ws[k - 1]);
        WordBehind(Join(ws, k - 1), ws[k - 1], Join(ws, k), 0);
      }
    }
  }

  lemma NoWords()
    ensures Words([], 0) == [] && OneLine([])
  {
  }

  lemma JoinIsBehind(s: seq<Byte>, w: seq<Byte>)
    requires OneLine(s) && Plain(w)
    ensures Behind(s, w, s + [SPACE] + w) && OneLine(s + [SPACE] + w)
  {
  }

  /** Whatever the command, its arguments survive the program reading them back and cutting them again. */
  lemma ArgumentsSurvive(command: seq<Byte>)
    requires NulFree(command)
    ensures var ws := ArgumentsOf(command)[1..];
            Words(Join(ws, |ws|), 0) == ws
  {
    var t := Path(command);
    var e := WordEnd(t, 2);
    var ws := ArgumentsOf(command)[1..];
    if e < |t| {
      WordsArePlain(t, e + 1);
      assert ws == Words(t, e + 1);
    }
    JoinThenSplit(ws, |ws|);
  }

  /** The characters of `s` from `i` on that are not spaces. */
  function NonSpaces(s: seq<Byte>, i: nat): seq<Byte>
    requires i <= |s|
    decreases |s| - i
  {
    if i == |s| then [] else (if s[i] == SPACE then [] else [s[i]]) + NonSpaces(s, i + 1)
  }

  function Concat(ws: seq<seq<Byte>>): seq<Byte> {
    if ws == [] then [] else ws[0] + Concat(ws[1..])
  }

  lemma {:induction false} SpacesVanish(s: seq<Byte>, i: nat, j: nat)
    requires i <= j <= |s| && forall k :: i <= k < j ==> s[k] == SPACE
    ensures NonSpaces(s, i) == NonSpaces(s, j)
    decreases j - i
  {
    if i < j { SpacesVanish(s, i + 1, j); }
  }

  lemma {:induction false} LettersStay(s: seq<Byte>, i: nat, j: nat)
    requires i <= j <= |s| && forall k :: i <= k < j ==> s[k] != SPACE
    ensures NonSpaces(s, i) == s[i..j] + NonSpaces(s, j)
    decreases j - i
  {
    if i < j {
      LettersStay(s, i + 1, j);
      SliceFromFirst(s, i, j, NonSpaces(s, j));
    }
  }

  lemma SliceFromFirst(s: seq<Byte>, i: nat, j: nat, rest: seq<Byte>)
    requires i < j <= |s|
    ensures [s[i]] + (s[i + 1..j] + rest) == s[i..j] + rest
  {
  }

  /** On one line nothing but spaces is lost: the words in order are the text without its spaces. */
  lemma {:induction false} WordsKeepEveryLetter(s: seq<Byte>, i: nat)
    requires i <= |s| && OneLine(s)
    ensures Concat(Words(s, i)) == NonSpaces(s, i)
    decreases |s| - i
  {
    hide Words, Concat;
    var a := AfterSpaces(s, i);
    SpacesVanish(s, i, a);
    NoWordHere(s, i);
    ConcatFirst([], []);
    if a < |s| {
      var b := WordEnd(s, a);
      LettersStay(s, a, b);
      WordsUnfold(s, i);
      ConcatFirst(s[a..b], if b < |s| then Words(s, b + 1) else []);
      if b < |s| {
        WordsKeepEveryLetter(s, b + 1);
      }
    }
  }

  lemma ConcatFirst(w: seq<Byte>, ws: seq<seq<Byte>>)
    ensures Concat([w] + ws) == w + Concat(ws) && Concat([]) == []
  {
    assert ([w] + ws)[1..] == ws;
  }

  /** The kernel's own parser takes the first two of the same words, when they are short enough. */
  lemma KernelTakesTwoWords(s: seq<Byte>)
    requires OneLine(s)
    ensures var ws := Words(s, 0);
            var name := if |ws| > 0 then ws[0] else [];
            var arg := if |ws| > 1 then ws[1] else [];
            CommandOf(s) == if |name| <= 32 && |arg| <= 32 then Command.Command(name, arg) else TooLong
  {
    var a := AfterSpaces(s, 0);
    var b := WordEnd(s, a);
    var c := AfterSpaces(s, b);
    if b < |s| {
      assert AfterSpaces(s, b + 1) == c;
    }
  }
}
