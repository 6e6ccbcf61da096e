/** The words of a command under the path in front of it, and at the end of a line. */
module CommandWords {
  import opened Bytes
  import opened Kernel
  import opened Numbers
  import opened Arguments

  /** From position `d` on `t` is `s`. */
  predicate EndsWith(t: seq<Byte>, d: nat, s: seq<Byte>) {
    |t| == d + |s| && forall k :: d <= k < |t| ==> t[k] == s[k - d]
  }

  lemma SameWordBehind(t: seq<Byte>, d: nat, s: seq<Byte>, i: nat)
    requires EndsWith(t, d, s) && i <= |s|
    ensures AfterSpaces(t, d + i) == d + AfterSpaces(s, i) && WordEnd(t, d + i) == d + WordEnd(s, i)
  {
    AfterSpacesIs(t, d + i, d + AfterSpaces(s, i));
    WordEndIs(t, d + i, d + WordEnd(s, i));
  }

  /** The words of a text are the same behind another text. */
  lemma {:induction false} WordsBehind(t: seq<Byte>, d: nat, s: seq<Byte>, i: nat)
    requires EndsWith(t, d, s) && i <= |s|
    ensures Words(t, d + i) == Words(s, i)
    decreases |s| - i
  {
    hide Words, AfterSpaces, WordEnd;
    var a := AfterSpaces(s, i);
    SameWordBehind(t, d, s, i);
    NoWordHere(s, i);
    NoWordHere(t, d + i);
    if a < |s| && s[a] != NEWLINE {
      SameWordBehind(t, d, s, a);
      var b := WordEnd(s, a);
      assert t[d + a..d + b] == s[a..b];
      WordsUnfold(s, i);
      WordsUnfold(t, d + i);
      if b < |s| {
        WordsBehind(t, d, s, b + 1);
      }
    }
  }

  /**
   * The arguments of a one-line command are its words, the first one behind "./"; with a space in front the
   * path is "./" alone and all words follow it.
   */
  lemma ArgumentsAreWords(command: seq<Byte>)
    requires OneLine(command)
    ensures var ws := Words(command, 0);
            if command == [] || command[0] == 32 then ArgumentsOf(command) == [[46, 47]] + ws
            else ws != [] && ArgumentsOf(command) == [[46, 47] + ws[0]] + ws[1..]
  {
    hide Words;
    var t := Path(command);
    assert EndsWith(t, 2, command);
    SameWordBehind(t, 2, command, 0);
    NoWordHere(command, 0);
    var e := WordEnd(command, 0);
    assert t[..2 + e] == [DOT, SLASH] + command[..e];
    if command == [] {
      assert t[..2] == [46, 47];
    } else if command[0] == SPACE {
      assert e == 0 && t[..2] == [46, 47];
      WordsBehind(t, 2, command, 1);
      AfterFirstSpace(command);
    } else {
      assert AfterSpaces(command, 0) == 0;
      WordsUnfold(command, 0);
      assert command[0..e] == command[..e];
      if e < |command| {
        WordsBehind(t, 2, command, e + 1);
      }
    }
  }

  lemma AfterFirstSpace(s: seq<Byte>)
    requires s != [] && s[0] == SPACE
    ensures Words(s, 1) == Words(s, 0)
  {
  }

  /** `t` is `s`, a newline and more. */
  predicate BeforeNewline(s: seq<Byte>, t: seq<Byte>) {
    |t| > |s| && t[|s|] == NEWLINE && forall k :: 0 <= k < |s| ==> t[k] == s[k]
  }

  lemma WordInFront(s: seq<Byte>, t: seq<Byte>, i: nat)
    requires BeforeNewline(s, t) && i <= |s|
    ensures AfterSpaces(t, i) == AfterSpaces(s, i) && WordEnd(t, i) == WordEnd(s, i)
  {
    AfterSpacesIs(t, i, AfterSpaces(s, i));
    WordEndIs(t, i, WordEnd(s, i));
  }

  /**
   * A newline right behind a word ends it like a space, and the words after it count; behind a space or at the
   * start it ends the command.
   */
  lemma {:induction false} NewlineExactly(s: seq<Byte>, t: seq<Byte>, i: nat)
    requires OneLine(s) && BeforeNewline(s, t) && i <= |s|
    ensures Words(t, i) == Words(s, i) + if i < |s| && s[|s| - 1] != SPACE then Words(t, |s| + 1) else []
    decreases |s| - i
  {
    hide Words, AfterSpaces, WordEnd;
    var a := AfterSpaces(s, i);
    WordInFront(s, t, i);
    NoWordHere(s, i);
    NoWordHere(t, i);
    if a < |s| {
      WordInFront(s, t, a);
      var b := WordEnd(s, a);
      assert t[a..b] == s[a..b];
      WordsUnfold(s, i);
      WordsUnfold(t, i);
      if b < |s| {
        NewlineExactly(s, t, b + 1);
        assert Words(t, b + 1) == Words(s, b + 1) + if s[|s| - 1] != SPACE then Words(t, |s| + 1) else [];
        ConcatAssociates([s[a..b]], Words(s, b + 1), if s[|s| - 1] != SPACE then Words(t, |s| + 1) else []);
      }
    }
  }
}
