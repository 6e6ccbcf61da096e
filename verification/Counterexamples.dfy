/** Inputs and runs on which the code falls short, one for each property that holds only under a condition. */
module Counterexamples {
  import opened Bytes
  import FileSystem
  import Descriptors
  import Directories
  import Programs
  import Grep
  import Console
  import Keyboard
  import Terminals
  import TerminalRuns
  import Consoles
  import Blinkers
  import Animation
  import Paging
  import Arguments
  import Emulator

  const LETTER: Byte := 97

  /** An image whose inode 0 is a file of one byte. */
  function OneByteFile(): FileSystem.Image {
    FileSystem.Image(a => if a == 4096 then 1 else 0)
  }

  /** A read at offset 2 of a file of one byte delivers a byte. */
  lemma ReadPastTheEndDelivers()
    ensures var img := OneByteFile();
            && img.ValidInode(0) && img.FileLength(0) == 1
            && FileSystem.Delivered(img, 0, 2, 1) != FileSystem.Slice(img.Content(0), 2, 1) == []
  {
    var img := OneByteFile();
    assert img.Word(1024) == 1;
    FileSystem.ReadDataExact(img, 0, 2, 1);
  }

  lemma RunOneMore(disk: Descriptors.Disk, es: seq<Descriptors.Event>, ev: Descriptors.Event)
    requires Descriptors.ValidRun(disk, es) && Descriptors.ValidEvent(ev)
    ensures Descriptors.ValidRun(disk, es + [ev])
    ensures Descriptors.Run(disk, es + [ev]) == Descriptors.Step(disk, Descriptors.Run(disk, es), ev).state
  {
    assert (es + [ev])[..|es|] == es;
  }

  /** The first process has no files open and the directory cursor is at the start. */
  lemma FirstProcess(disk: Descriptors.Disk) returns (s: Descriptors.State)
    requires disk.Valid()
    ensures Descriptors.ValidRun(disk, [Descriptors.Execute(true)])
    ensures s == Descriptors.Run(disk, [Descriptors.Execute(true)])
    ensures s.pid == 0 && s.currDir == 0 && |s.Fdt(0)| == Descriptors.MAX_FD
    ensures forall fd :: 2 <= fd < Descriptors.MAX_FD ==> !s.Entry(0, fd).used
  {
    var z := Descriptors.ZeroState();
    assert [] + [Descriptors.Execute(true)] == [Descriptors.Execute(true)];
    RunOneMore(disk, [], Descriptors.Execute(true));
    s := Descriptors.ExecuteStep(z, true).state;
    assert Descriptors.FreePcb(z.pcbs, 0) == 0;
    assert s.Fdt(0) == Descriptors.InitFdt(z.pcbs[0].fdt);
  }

  /** An open of a known name takes the first free slot and leaves the cursor at the start. */
  lemma OpensSlot(disk: Descriptors.Disk, s: Descriptors.State, name: seq<Byte>, slot: nat)
    requires disk.Valid() && Descriptors.ValidState(disk.img, s) && FileSystem.Lookup(disk.dir, name) >= 0
    requires 2 <= slot < Descriptors.MAX_FD == |s.Fdt(s.pid)| && s.currDir == 0
    requires forall fd :: 2 <= fd < Descriptors.MAX_FD ==> (s.Entry(s.pid, fd).used <==> fd < slot)
    ensures var t, d := Descriptors.OpenStep(disk, s, name).state, disk.dir[FileSystem.Lookup(disk.dir, name)];
            && t.pid == s.pid && t.currDir == 0 && |t.Fdt(t.pid)| == Descriptors.MAX_FD
            && t.Entry(t.pid, slot).used && t.Entry(t.pid, slot).kind == Descriptors.KindOf(d.filetype)
            && t.Entry(t.pid, slot).bytesRead == 0
            && forall fd :: fd != slot ==> t.Entry(t.pid, fd) == s.Entry(s.pid, fd)
  {
    hide FileSystem.Lookup;
    var free := Descriptors.FreeSlot(s.Fdt(s.pid), 2);
    assert free < Descriptors.MAX_FD ==> !s.Entry(s.pid, free).used;
    assert !s.Entry(s.pid, slot).used;
    assert free == slot;
    Descriptors.OpenStartsAtZero(disk, s, name);
  }

  /** The first process opens a file and reads -1 bytes: its cursor is then at the largest offset. */
  lemma NegativeReadMovesBack(disk: Descriptors.Disk, name: seq<Byte>)
    requires disk.Valid()
    requires var i := FileSystem.Lookup(disk.dir, name); i >= 0 && disk.dir[i].filetype == 2
    ensures var es := [Descriptors.Execute(true)] + [Descriptors.Open(name)] + [Descriptors.Read(2, -1)];
            Descriptors.ValidRun(disk, es) && Descriptors.Run(disk, es).Entry(0, 2).bytesRead == WORD_SPAN - 1
  {
    hide Descriptors.OpenStep, Descriptors.ReadStep, FileSystem.Lookup, Descriptors.Run;
    var s := FirstProcess(disk);
    OpensSlot(disk, s, name, 2);
    var es := [Descriptors.Execute(true)];
    RunOneMore(disk, es, Descriptors.Open(name));
    RunOneMore(disk, es + [Descriptors.Open(name)], Descriptors.Read(2, -1));
    var t := Descriptors.OpenStep(disk, s, name).state;
    Descriptors.ReadMovesCursor(disk, t, 2, -1);
    assert Unsigned32(-1) == WORD_SPAN - 1;
  }

  /** The directory is open twice: the second reader misses the entry the first one has read. */
  lemma SecondReaderMissesEntry(disk: Descriptors.Disk)
    requires disk.Valid() && |disk.dir| >= 2
    requires var i := FileSystem.Lookup(disk.dir, [DOT]); i >= 0 && disk.dir[i].filetype == 1
    ensures var es := [Descriptors.Execute(true)] + [Descriptors.Open([DOT])] + [Descriptors.Open([DOT])]
                      + [Descriptors.Read(2, 32)];
            && Descriptors.ValidRun(disk, es)
            && Descriptors.ReadStep(disk, Descriptors.Run(disk, es), 3, 32).data == disk.dir[1].Name()
  {
    hide Descriptors.OpenStep, FileSystem.Lookup, Descriptors.Run;
    var s := FirstProcess(disk);
    var es := [Descriptors.Execute(true)];
    RunOneMore(disk, es, Descriptors.Open([DOT]));
    RunOneMore(disk, es + [Descriptors.Open([DOT])], Descriptors.Open([DOT]));
    RunOneMore(disk, es + [Descriptors.Open([DOT])] + [Descriptors.Open([DOT])], Descriptors.Read(2, 32));
    OpensSlot(disk, s, [DOT], 2);
    var t := Descriptors.OpenStep(disk, s, [DOT]).state;
    OpensSlot(disk, t, [DOT], 3);
  }

  /** A directory whose first name is empty is listed as if it were empty. */
  lemma EmptyNameEndsListing(last: FileSystem.Dentry)
    ensures var dir := [FileSystem.Dentry([NUL], 0, 0), last];
            Programs.Listing(dir, 0) == [] && |Programs.AllNames(dir)| == 2
  {
  }

  function Letters(n: nat): seq<Byte> {
    seq(n, _ => LETTER)
  }

  lemma LettersMatch(n: nat)
    requires n > 0
    ensures Grep.Matches(Letters(n), [LETTER])
  {
    assert Letters(n)[0..1] == [LETTER];
    assert Grep.MatchesAt(Letters(n), [LETTER], 0);
  }

  /** A matching line of 1025 bytes is not printed as it is. */
  lemma LongLineIsSplit()
    ensures var s, pattern := Letters(1025), [LETTER];
            Grep.Hits(Grep.Scanned(s, 0, false), pattern) != Grep.Hits(Grep.Lines(s, 0, |s|), pattern)
  {
    hide Grep.Hits, Grep.Scanned, Grep.Matches;
    var s, pattern := Letters(1025), [LETTER];
    LettersMatch(1025);
    Grep.LineEndIs(s, 0, |s|, |s|);
    assert s[0..|s|] == s;
    assert Grep.Lines(s, 0, |s|)[0] == s && s in Grep.Lines(s, 0, |s|);
    Grep.GrepFindsLinesExactly(s, false, pattern);
  }

  /** With a stale newline a matching line of 1024 bytes behind an empty one is cut, though it fits the window. */
  lemma StaleNewlineCutsLine()
    ensures var s, pattern := [NEWLINE] + Letters(1024), [LETTER];
            Grep.Hits(Grep.Scanned(s, 0, true), pattern) != Grep.Hits(Grep.Lines(s, 0, |s|), pattern)
  {
    hide Grep.Hits, Grep.Scanned, Grep.Matches, Grep.Lines;
    var s, pattern := [NEWLINE] + Letters(1024), [LETTER];
    Grep.LineEndIs(s, 0, 0, |s|);
    Grep.LineEndIs(s, 1, |s|, |s|);
    assert s[1..|s|] == Letters(1024);
    LettersMatch(1024);
    assert Grep.CutAt(s, 0) == 1024;
    assert Grep.LineAround(s, 0, 1024) == Grep.LineAround(s, 1, 1024) == s[1..|s|];
    Grep.GrepFindsLinesExactly(s, true, pattern);
  }

  /** A full line on one terminal, and a switch to an empty one: no key types anything there. */
  lemma FullCountBlocksEveryTerminal(m: Terminals.Machine, t: nat)
    requires TerminalRuns.Editing(m, []) && t < Terminals.TERMINALS && t != m.onScreen && m.saved[t].idx == 0
    ensures var ks := TerminalRuns.Types(Letters(127));
            && TerminalRuns.KeysInBounds(m, ks)
            && var n := Terminals.SwitchStep(TerminalRuns.PressAll(m, ks), t);
               && n.onScreen == t && n.idx == 0 && n.count == 127
               && forall f, scan :: !Terminals.ActionOf(f, n.count, scan).Type?
  {
    var ks := TerminalRuns.Types(Letters(127));
    TerminalRuns.KeysStayInBounds(m, ks);
    TypingCounts(m, 127);
  }

  lemma {:induction false} TypingCounts(m: Terminals.Machine, n: nat)
    requires Terminals.Valid(m) && m.idx == m.count == 0 && n <= Terminals.MAX_TYPED
    ensures var ks := TerminalRuns.Types(Letters(n));
            && TerminalRuns.KeysInBounds(m, ks) && TerminalRuns.PressAll(m, ks).count == n
            && TerminalRuns.PressAll(m, ks).saved == m.saved && TerminalRuns.PressAll(m, ks).onScreen == m.onScreen
  {
    hide Console.PutcStep;
    if n > 0 {
      TypingCounts(m, n - 1);
      TerminalRuns.TypesOneMore(Letters(n));
      assert Letters(n)[..n - 1] == Letters(n - 1);
    }
  }

  /** A character, a switch, an enter and the switch back: index 1 and count 0, and the buffer can be overrun. */
  lemma EnterElsewhereOverruns(m: Terminals.Machine, t: nat)
    requires TerminalRuns.Editing(m, []) && t < Terminals.TERMINALS && t != m.onScreen
    ensures var n := Terminals.SwitchStep(Terminals.EnterStep(
                       Terminals.SwitchStep(Terminals.TypeStep(m, LETTER), t)), m.onScreen);
            && Terminals.Valid(n) && n.idx == 1 && n.count == 0 && n.onScreen == m.onScreen
            && exists ks :: TerminalRuns.EditKeys(ks) && !TerminalRuns.KeysInBounds(n, ks)
  {
    hide Console.PutcStep;
    var a := Terminals.TypeStep(m, LETTER);
    Terminals.KeyKeepsValid(m, Terminals.Type(LETTER));
    var b := Terminals.SwitchStep(a, t);
    Terminals.KeyKeepsValid(a, Terminals.Switch(t));
    var c := Terminals.EnterStep(b);
    Terminals.KeyKeepsValid(b, Terminals.Enter);
    Terminals.KeyKeepsValid(c, Terminals.Switch(m.onScreen));
    TerminalRuns.EditingStaysInBoundsExactly(Terminals.SwitchStep(c, m.onScreen));
  }

  lemma {:induction false} LettersEdit(m: Terminals.Machine, n: nat)
    requires TerminalRuns.Editing(m, []) && n <= Terminals.MAX_TYPED
    ensures TerminalRuns.KeysInBounds(m, TerminalRuns.Types(Letters(n)))
    ensures TerminalRuns.Editing(TerminalRuns.PressAll(m, TerminalRuns.Types(Letters(n))), Letters(n))
    ensures n > 0 ==> TerminalRuns.PressAll(m, TerminalRuns.Types(Letters(n))).kb[n] == NEWLINE
  {
    hide TerminalRuns.Editing;
    TerminalRuns.EditingIsValid(m, []);
    if n == 0 {
      assert Letters(0) == [];
    } else {
      LettersEdit(m, n - 1);
      TerminalRuns.TypesOneMore(Letters(n));
      assert Letters(n)[..n - 1] == Letters(n - 1) && Letters(n) == Letters(n - 1) + [LETTER];
      OneLetter(TerminalRuns.PressAll(m, TerminalRuns.Types(Letters(n - 1))), Letters(n - 1));
    }
  }

  lemma OneLetter(m: Terminals.Machine, line: seq<Byte>)
    requires TerminalRuns.Editing(m, line) && |line| < Terminals.MAX_TYPED
    ensures var a := Terminals.Type(LETTER);
            && TerminalRuns.PressInBounds(m, a) && TerminalRuns.Editing(TerminalRuns.PressOne(m, a), line + [LETTER])
            && TerminalRuns.PressOne(m, a).kb[|line| + 1] == NEWLINE
  {
    TerminalRuns.EditStep(m, line, Terminals.Type(LETTER));
  }

  /** Typing 127 characters leaves no NUL in the keyboard buffer. */
  lemma FullLineHasNoNul(m: Terminals.Machine)
    requires TerminalRuns.Editing(m, [])
    ensures var ks := TerminalRuns.Types(Letters(127));
            TerminalRuns.KeysInBounds(m, ks) && NUL !in TerminalRuns.PressAll(m, ks).kb
  {
    LettersEdit(m, 127);
    var kb := TerminalRuns.PressAll(m, TerminalRuns.Types(Letters(127))).kb;
    forall k | 0 <= k < 128 ensures kb[k] != NUL {
      assert k < 127 ==> kb[k] == kb[..127][k] == LETTER;
    }
  }

  /** The pool and the screen of `fish` before anything blinks. */
  function EmptyField(): Blinkers.Field {
    Blinkers.Field(seq(Blinkers.POOL, _ => Blinkers.ZERO), [], seq(2 * Blinkers.POOL, _ => NUL))
  }

  function BlinkAt(location: nat): Blinkers.Blink {
    Blinkers.Blink(location, LETTER, SPACE, 15, 15, 0, 0)
  }

  /** The first blinker at location 0 is accepted and breaks the list. */
  lemma LocationZeroBreaksList()
    ensures var f := EmptyField();
            && Blinkers.ValidField(f) && Blinkers.AddStep(f, BlinkAt(0)).1 == 0
            && !Blinkers.ValidField(Blinkers.AddStep(f, BlinkAt(0)).0)
  {
    var f := EmptyField();
    assert f.blinks[0].location == 0;
    Blinkers.AddKeepsValidExactly(f, BlinkAt(0));
  }

  /** Two blinkers are added, both on and both shown; after a sync the second shows its off character. */
  lemma SyncShowsWrongCharacter()
    ensures var es := Animation.Adds([BlinkAt(1), BlinkAt(2)]);
            && Blinkers.ValidField(EmptyField()) && Blinkers.ValidRun(es)
            && var f := Blinkers.Run(EmptyField(), es);
               && Blinkers.Apart(f) && Blinkers.Displayed(f) && Blinkers.SyncStep(f, 1, 2).1 == 0
               && Blinkers.ValidField(Blinkers.SyncStep(f, 1, 2).0)
               && !Blinkers.Displayed(Blinkers.SyncStep(f, 1, 2).0)
  {
    hide Blinkers.Run, Blinkers.Displayed;
    var bs := [BlinkAt(1), BlinkAt(2)];
    EmptyIsValid();
    Animation.AddsAreCarried(EmptyField(), bs);
    var f := Blinkers.Run(EmptyField(), Animation.Adds(bs));
    assert f.blinks[f.list[0]] == f.blinks[f.list[2 - 1 - 1]] == Blinkers.Fresh(bs[1]);
    assert f.blinks[f.list[1]] == f.blinks[f.list[2 - 1 - 0]] == Blinkers.Fresh(bs[0]);
    Blinkers.SyncKeepsValid(f, 1, 2);
    Blinkers.SyncKeepsDisplayedExactly(f, 1, 2);
  }

  lemma EmptyIsValid()
    ensures Blinkers.ValidField(EmptyField())
  {
  }

  /** The accepted pointer 0x83FFFFD: not all four bytes of its store are mapped, whatever process runs. */
  lemma VidMapLeavesUserPage(m: Paging.Tables, n: Paging.Word)
    requires Paging.Serves(m, n)
    ensures Paging.VidMap(0x83F_FFFD, 0).Pointer?
    ensures exists va :: 0x83F_FFFD <= va <= 0x840_0000 && !Paging.Walk(m, va).Physical?
  {
    Paging.VidMapStoreFaultsExactly(m, n, 0x83F_FFFD, 0);
  }

  /** A two-letter argument and a buffer of two bytes: the terminator lands behind the buffer. */
  lemma ArgumentSpills()
    ensures Emulator.Spills([Letters(2)], 2)
  {
    assert |Arguments.Join([Letters(2)], 1)| == 2;
  }
}
