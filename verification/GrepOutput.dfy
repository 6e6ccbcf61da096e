/** What `grep` and `ls` print, read back as lines. */
module GrepOutput {
  import opened Bytes
  import opened FileSystem
  import opened Descriptors
  import opened Programs
  import opened Grep
  import opened GrepProgram

  /** The lines of a whole text. */
  function AllLines(s: seq<Byte>): seq<seq<Byte>> {
    Lines(s, 0, |s|)
  }

  predicate NoNewline(s: seq<Byte>) {
    NEWLINE !in s
  }

  predicate NoNewlines(ls: seq<seq<Byte>>) {
    forall k :: 0 <= k < |ls| ==> NoNewline(ls[k])
  }

  lemma LinesUnfold(s: seq<Byte>, i: nat, j: nat)
    requires i < j <= |s|
    ensures Lines(s, i, j) == [s[i..LineEnd(s, i, j)]] + Lines(s, LineEnd(s, i, j) + 1, j)
  {
  }

  /** The same stretch of another text has the same lines. */
  lemma {:induction false} LinesSame(s: seq<Byte>, i: nat, t: seq<Byte>, k: nat, n: nat)
    requires i + n <= |s| && k + n <= |t| && s[i..i + n] == t[k..k + n]
    ensures Lines(s, i, i + n) == Lines(t, k, k + n)
    decreases n
  {
    hide LineEnd, Lines;
    if n == 0 {
      NoLines(s, i, i);
      NoLines(t, k, k);
    } else {
      var e := LineEnd(s, i, i + n) - i;
      forall m | k <= m < k + n ensures t[m] == s[i + (m - k)] {
        assert t[k..k + n][m - k] == s[i..i + n][m - k];
      }
      forall m | k <= m < k + e ensures t[m] != NEWLINE {
        assert t[m] == s[i + (m - k)];
      }
      assert e < n ==> t[k + e] == s[i + e];
      LineEndIs(t, k, k + e, k + n);
      assert s[i..i + e] == s[i..i + n][..e] == t[k..k + n][..e] == t[k..k + e];
      LinesUnfold(s, i, i + n);
      LinesUnfold(t, k, k + n);
      if e + 1 <= n {
        SliceOfSlice(s, i, i + n, e + 1, n);
        SliceOfSlice(t, k, k + n, e + 1, n);
        LinesSame(s, i + e + 1, t, k + e + 1, n - e - 1);
      } else {
        NoLines(s, i + e + 1, i + n);
        NoLines(t, k + e + 1, k + n);
      }
    }
  }

  /** Lines are cut at a newline. */
  lemma {:induction false} LinesSplit(s: seq<Byte>, i: nat, c: nat, j: nat)
    requires i < c <= j <= |s| && s[c - 1] == NEWLINE
    ensures Lines(s, i, j) == Lines(s, i, c) + Lines(s, c, j)
    decreases c - i
  {
    hide LineEnd, Lines;
    var e := LineEnd(s, i, j);
    assert e < c;
    LineEndBefore(s, i, c, j);
    LinesUnfold(s, i, j);
    LinesUnfold(s, i, c);
    if e + 1 < c {
      LinesSplit(s, e + 1, c, j);
      ConcatAssociates([s[i..e]], Lines(s, e + 1, c), Lines(s, c, j));
    } else {
      NoLines(s, c, c);
    }
  }

  /** What is printed up to the end of a line, and what is printed then. */
  lemma LinesOfConcat(a: seq<Byte>, b: seq<Byte>)
    requires a == [] || a[|a| - 1] == NEWLINE
    ensures AllLines(a + b) == AllLines(a) + AllLines(b)
  {
    hide Lines;
    var s := a + b;
    LinesSame(s, 0, a, 0, |a|);
    LinesSame(s, |a|, b, 0, |b|);
    if a == [] {
      NoLines(a, 0, 0);
      assert s == b;
    } else {
      LinesSplit(s, 0, |a|, |s|);
    }
  }

  lemma OnePrinted(w: seq<Byte>)
    requires NoNewline(w)
    ensures AllLines(w + [NEWLINE]) == [w]
  {
    var s := w + [NEWLINE];
    forall k | 0 <= k < |w| ensures s[k] != NEWLINE {
      assert s[k] == w[k];
    }
    LineEndIs(s, 0, |w|, |s|);
    assert s[0..|w|] == w;
    NoLines(s, |w| + 1, |s|);
  }

  /** Strings printed with a newline behind each are the lines of what is printed. */
  lemma {:induction false} LinesOfFlat(ls: seq<seq<Byte>>)
    requires NoNewlines(ls)
    ensures AllLines(Flat(ls, [NEWLINE])) == ls
    ensures Flat(ls, [NEWLINE]) == [] || Flat(ls, [NEWLINE])[|Flat(ls, [NEWLINE])| - 1] == NEWLINE
  {
    hide AllLines;
    if ls == [] {
      NothingPrinted();
    } else {
      LinesOfFlat(ls[1..]);
      OnePrinted(ls[0]);
      LinesOfConcat(ls[0] + [NEWLINE], Flat(ls[1..], [NEWLINE]));
    }
  }

  lemma NothingPrinted()
    ensures AllLines([]) == []
  {
  }

  /** The lines of a text have no newlines in them, and put together they are the text again. */
  lemma {:induction false} LinesMakeText(s: seq<Byte>, i: nat, j: nat)
    requires i <= j <= |s|
    ensures NoNewlines(Lines(s, i, j))
    ensures Flat(Lines(s, i, j), [NEWLINE]) == s[i..j] + if i < j && s[j - 1] != NEWLINE then [NEWLINE] else []
    decreases j - i
  {
    hide Lines, Flat, LineEnd;
    if i < j {
      var e := LineEnd(s, i, j);
      LinesUnfold(s, i, j);
      FlatOfCons(s[i..e], Lines(s, Min(e + 1, j), j));
      if e < j {
        LinesMakeText(s, e + 1, j);
        assert s[i..j] == s[i..e] + [NEWLINE] + s[e + 1..j];
      } else {
        NoLines(s, e + 1, j);
        NoLines(s, j, j);
        FlatOfNothing();
        assert s[i..j] == s[i..e];
      }
    } else {
      NoLines(s, i, j);
      FlatOfNothing();
    }
  }

  lemma FlatOfNothing()
    ensures Flat([], [NEWLINE]) == []
  {
  }

  lemma FlatOfCons(w: seq<Byte>, ls: seq<seq<Byte>>)
    ensures Flat([w] + ls, [NEWLINE]) == w + [NEWLINE] + Flat(ls, [NEWLINE])
  {
    assert ([w] + ls)[1..] == ls;
  }

  /** The pattern stands somewhere in the line. */
  ghost predicate Contains(line: seq<Byte>, pattern: seq<Byte>) {
    exists a, b :: line == a + pattern + b
  }

  lemma MatchesExactly(line: seq<Byte>, pattern: seq<Byte>)
    ensures Matches(line, pattern) <==> pattern != [] && Contains(line, pattern)
  {
    if Matches(line, pattern) {
      var k :| 0 <= k < |line| && MatchesAt(line, pattern, k);
      assert line == line[..k] + pattern + line[k + |pattern|..];
    }
    if pattern != [] && Contains(line, pattern) {
      var a, b :| line == a + pattern + b;
      assert line[|a|..|a| + |pattern|] == pattern;
      assert MatchesAt(line, pattern, |a|);
    }
  }

  /** A line is a hit as often as it is a line, if it contains the pattern, and never otherwise. */
  lemma {:induction false} HitsCount(ls: seq<seq<Byte>>, pattern: seq<Byte>, line: seq<Byte>)
    ensures multiset(Hits(ls, pattern))[line] ==
            if pattern != [] && Contains(line, pattern) then multiset(ls)[line] else 0
  {
    hide Contains, Matches;
    if ls != [] {
      HitsCount(ls[1..], pattern, line);
      MatchesExactly(ls[0], pattern);
      assert ls == [ls[0]] + ls[1..];
    }
  }

  /** What is printed for one file, as strings. */
  function Prefixed(fname: seq<Byte>, hits: seq<seq<Byte>>): (r: seq<seq<Byte>>)
    ensures |r| == |hits| && forall k :: 0 <= k < |hits| ==> r[k] == fname + [COLON] + hits[k]
  {
    seq(|hits|, k requires 0 <= k < |hits| => fname + [COLON] + hits[k])
  }

  lemma {:induction false} ReportIsFlat(fname: seq<Byte>, hits: seq<seq<Byte>>)
    ensures Report(fname, hits) == Flat(Prefixed(fname, hits), [NEWLINE])
  {
    if hits != [] {
      ReportIsFlat(fname, hits[1..]);
      assert Prefixed(fname, hits)[1..] == Prefixed(fname, hits[1..]);
    }
  }

  lemma {:induction false} HitsHaveNoNewlines(ls: seq<seq<Byte>>, pattern: seq<Byte>)
    requires NoNewlines(ls)
    ensures NoNewlines(Hits(ls, pattern))
  {
    hide Matches;
    if ls != [] {
      HitsHaveNoNewlines(ls[1..], pattern);
    }
  }

  /** What is printed for a text: its matching lines in order, each on a line of its own behind the name and a colon. */
  lemma MatchingReadsBack(fname: seq<Byte>, text: seq<Byte>, pattern: seq<Byte>)
    requires NoNewline(fname)
    ensures var hits, printed := Hits(AllLines(text), pattern), AllLines(Matching(fname, text, pattern));
            |printed| == |hits| && forall k :: 0 <= k < |hits| ==> printed[k] == fname + [58] + hits[k]
    ensures var out := Matching(fname, text, pattern); out == [] || out[|out| - 1] == NEWLINE
  {
    hide Lines, Matches, Hits, Flat, Report;
    var hits := Hits(AllLines(text), pattern);
    LinesMakeText(text, 0, |text|);
    HitsHaveNoNewlines(AllLines(text), pattern);
    assert forall k :: 0 <= k < |hits| ==> NoNewline(hits[k]);
    ReportIsFlat(fname, hits);
    LinesOfFlat(Prefixed(fname, hits));
  }

  /** The names up to the first empty one are not empty. */
  predicate Reached(disk: Disk, i: nat, n: nat) {
    n < |disk.dir| && forall j :: i <= j <= n ==> disk.dir[j].Name() != []
  }

  /** Entry `n` is searched and has `line` as one of its lines that contain the pattern. */
  ghost predicate FoundIn(disk: Disk, pattern: seq<Byte>, n: nat, line: seq<Byte>) {
    n < |disk.dir| &&
    var name := disk.dir[n].Name();
    name != [] && name[0] != 46 && line in AllLines(TextOf(disk, name)) && pattern != [] && Contains(line, pattern)
  }

  /** The string is what should be printed for a line of an entry from `i` on. */
  ghost predicate Wanted(disk: Disk, pattern: seq<Byte>, i: nat, l: seq<Byte>) {
    exists n: nat, line :: n >= i && Reached(disk, i, n) && FoundIn(disk, pattern, n, line)
                           && l == disk.dir[n].Name() + [58] + line
  }

  lemma EntryPrints(disk: Disk, pattern: seq<Byte>, i: nat, l: seq<Byte>)
    requires i < |disk.dir| && disk.dir[i].Name() != [] && NoNewline(disk.dir[i].Name())
    ensures var name := disk.dir[i].Name();
            var out := if IsFile(name) then Matching(name, TextOf(disk, name), pattern) else [];
            && (l in AllLines(out) <==> exists line :: FoundIn(disk, pattern, i, line) && l == name + [58] + line)
            && (out == [] || out[|out| - 1] == NEWLINE)
  {
    hide Matching, Hits, TextOf, Contains, AllLines;
    var name := disk.dir[i].Name();
    var text := TextOf(disk, name);
    if IsFile(name) {
      var hits, printed := Hits(AllLines(text), pattern), AllLines(Matching(name, text, pattern));
      MatchingReadsBack(name, text, pattern);
      if l in printed {
        var k :| 0 <= k < |printed| && printed[k] == l;
        HitsCount(AllLines(text), pattern, hits[k]);
        assert hits[k] in multiset(hits);
        assert FoundIn(disk, pattern, i, hits[k]);
      }
      forall line | FoundIn(disk, pattern, i, line) && l == name + [58] + line ensures l in printed {
        HitsCount(AllLines(text), pattern, line);
        assert line in multiset(AllLines(text)) && line in multiset(hits);
        var k :| 0 <= k < |hits| && hits[k] == line;
        assert printed[k] == l;
      }
    } else {
      NothingPrinted();
    }
  }

  /**
   * Read as lines, the matching lines of all files are exactly the lines that contain the pattern, of the files
   * whose names do not start with a dot, each behind the name of its file and a colon.
   */
  lemma {:induction false} AllMatchingExactly(disk: Disk, pattern: seq<Byte>, i: nat, l: seq<Byte>)
    requires forall n :: 0 <= n < |disk.dir| ==> NoNewline(disk.dir[n].Name())
    ensures l in AllLines(AllMatching(disk, pattern, i)) <==> Wanted(disk, pattern, i, l)
    decreases |disk.dir| - i
  {
    hide AllLines, Matching, TextOf, FoundIn, NoNewline;
    if i >= |disk.dir| || disk.dir[i].Name() == [] {
      NothingPrinted();
    } else {
      var name := disk.dir[i].Name();
      var out := if IsFile(name) then Matching(name, TextOf(disk, name), pattern) else [];
      EntryPrints(disk, pattern, i, l);
      AllMatchingExactly(disk, pattern, i + 1, l);
      LinesOfConcat(out, AllMatching(disk, pattern, i + 1));
      assert l in AllLines(AllMatching(disk, pattern, i)) <==>
             l in AllLines(out) || l in AllLines(AllMatching(disk, pattern, i + 1));
      WantedHereOrLater(disk, pattern, i, l);
    }
  }

  lemma WantedHereOrLater(disk: Disk, pattern: seq<Byte>, i: nat, l: seq<Byte>)
    requires i < |disk.dir| && disk.dir[i].Name() != []
    ensures Wanted(disk, pattern, i, l) <==>
            (exists line :: FoundIn(disk, pattern, i, line) && l == disk.dir[i].Name() + [58] + line)
            || Wanted(disk, pattern, i + 1, l)
  {
    hide FoundIn;
    if Wanted(disk, pattern, i, l) {
      var n: nat, line :| n >= i && Reached(disk, i, n) && FoundIn(disk, pattern, n, line)
                          && l == disk.dir[n].Name() + [58] + line;
      assert n > i ==> Reached(disk, i + 1, n);
    }
    if exists line :: FoundIn(disk, pattern, i, line) && l == disk.dir[i].Name() + [58] + line {
      assert Reached(disk, i, i);
    }
    if Wanted(disk, pattern, i + 1, l) {
      var n: nat, line :| n >= i + 1 && Reached(disk, i + 1, n) && FoundIn(disk, pattern, n, line)
                          && l == disk.dir[n].Name() + [58] + line;
      assert Reached(disk, i, n);
    }
  }
}
