/** The `main` of `grep`: every file of the directory, searched through one directory descriptor. */
module GrepProgram {
  import opened Bytes
  import opened FileSystem
  import opened Descriptors
  import opened Kernel
  import opened Programs
  import opened Grep

  /** The program takes every name that starts with a dot for a directory. */
  predicate IsFile(name: seq<Byte>) {
    CharAt(name, 0) != DOT
  }

  /** The text behind a name; a device has none. */
  function TextOf(disk: Disk, name: seq<Byte>): seq<Byte> {
    var i := Lookup(disk.dir, name);
    if i >= 0 && disk.dir[i].filetype == 2 then disk.img.Content(disk.dir[i].inode) else []
  }

  /** The lines of a text that contain the pattern, each behind the name of its file. */
  function Matching(name: seq<Byte>, text: seq<Byte>, pattern: seq<Byte>): seq<Byte> {
    Output(name, Lines(text, 0, |text|), pattern)
  }

  /** What `do_one_file` prints for a text when the last cell of its array holds `cell` at the start. */
  function PrintedFor(name: seq<Byte>, text: seq<Byte>, pattern: seq<Byte>, cell: Byte): seq<Byte> {
    Output(name, Scanned(text, 0, cell == NEWLINE), pattern)
  }

  /**
   * What is printed for the entries from `i` on, up to an empty name. `cells` gives the byte that the array of
   * `do_one_file`, which is never initialised, has in its last cell when entry `i` is searched.
   */
  function Found(disk: Disk, pattern: seq<Byte>, cells: nat -> Byte, i: nat): seq<Byte>
    decreases |disk.dir| - i
  {
    if i >= |disk.dir| || disk.dir[i].Name() == [] then []
    else
      var name := disk.dir[i].Name();
      (if IsFile(name) then PrintedFor(name, TextOf(disk, name), pattern, cells(i)) else [])
      + Found(disk, pattern, cells, i + 1)
  }

  /** The matching lines of all files from entry `i` on, in index order, up to an empty name. */
  function AllMatching(disk: Disk, pattern: seq<Byte>, i: nat): seq<Byte>
    decreases |disk.dir| - i
  {
    if i >= |disk.dir| || disk.dir[i].Name() == [] then []
    else
      var name := disk.dir[i].Name();
      (if IsFile(name) then Matching(name, TextOf(disk, name), pattern) else []) + AllMatching(disk, pattern, i + 1)
  }

  predicate SomeFile(disk: Disk, i: nat)
    decreases |disk.dir| - i
  {
    i < |disk.dir| && disk.dir[i].Name() != [] && (IsFile(disk.dir[i].Name()) || SomeFile(disk, i + 1))
  }

  /** A text in which the window finds every line, whatever the cell behind it held before. */
  ghost predicate Clean(text: seq<Byte>, pattern: seq<Byte>) {
    ShortMatches(Lines(text, 0, |text|), pattern) && CutIsHarmless(text, 0, CutAt(text, 0), pattern)
  }

  ghost predicate AllClean(disk: Disk, pattern: seq<Byte>) {
    forall i :: 0 <= i < |disk.dir| && IsFile(disk.dir[i].Name()) ==> Clean(TextOf(disk, disk.dir[i].Name()), pattern)
  }

  /** What stands behind a name is a text without NULs, or a device, but no directory. */
  ghost predicate Searchable(disk: Disk, name: seq<Byte>) {
    var i := Lookup(disk.dir, name);
    (i >= 0 ==> disk.dir[i].filetype != 1) && NUL !in TextOf(disk, name)
  }

  /** A text is searched right with both contents of the cell if and only if it is clean. */
  lemma CleanScanExactly(text: seq<Byte>, pattern: seq<Byte>)
    ensures (forall stale :: Hits(Scanned(text, 0, stale), pattern) == Hits(Lines(text, 0, |text|), pattern))
       <==> Clean(text, pattern)
  {
    hide Hits, Scanned, Lines, ShortMatches, CutIsHarmless;
    GrepFindsLinesExactly(text, false, pattern);
    GrepFindsLinesExactly(text, true, pattern);
    assert Hits(Scanned(text, 0, true), pattern) == Hits(Lines(text, 0, |text|), pattern) <==> Clean(text, pattern);
    assert Clean(text, pattern) ==> Hits(Scanned(text, 0, false), pattern) == Hits(Lines(text, 0, |text|), pattern);
  }

  /** Where all files are clean, all matching lines are found, whatever the cells hold. */
  lemma {:induction false} CleanFilesAreFound(disk: Disk, pattern: seq<Byte>, cells: nat -> Byte, i: nat)
    requires AllClean(disk, pattern)
    ensures Found(disk, pattern, cells, i) == AllMatching(disk, pattern, i)
    decreases |disk.dir| - i
  {
    hide Clean, Hits, Scanned, Lines, Report, TextOf;
    if i < |disk.dir| && disk.dir[i].Name() != [] {
      var name := disk.dir[i].Name();
      var text, stale := TextOf(disk, name), cells(i) == NEWLINE;
      CleanScanExactly(text, pattern);
      assert IsFile(name) ==> Hits(Scanned(text, 0, stale), pattern) == Hits(Lines(text, 0, |text|), pattern);
      CleanFilesAreFound(disk, pattern, cells, i + 1);
    }
  }

  /** The running process still has the same slots in use, and the same directory open. */
  ghost predicate SameUse(s: State, t: State, fd: nat) {
    && t.pid == s.pid && |t.Fdt(s.pid)| == |s.Fdt(s.pid)| && t.Entry(s.pid, fd) == s.Entry(s.pid, fd)
    && forall j :: t.Entry(s.pid, j).used == s.Entry(s.pid, j).used
  }

  lemma {:induction false} SameFreeSlot(a: seq<FdEntry>, b: seq<FdEntry>, from: nat)
    requires |a| == |b| && from <= MAX_FD && forall j :: 0 <= j < |a| ==> a[j].used == b[j].used
    ensures FreeSlot(a, from) == FreeSlot(b, from)
    decreases MAX_FD - from
  {
    if from < MAX_FD { SameFreeSlot(a, b, from + 1); }
  }

  lemma SameUseSameSlot(s: State, t: State, fd: nat)
    requires SameUse(s, t, fd)
    ensures FreeSlot(t.Fdt(s.pid), 2) == FreeSlot(s.Fdt(s.pid), 2)
  {
    var a, b := t.Fdt(s.pid), s.Fdt(s.pid);
    forall j | 0 <= j < |a| ensures a[j].used == b[j].used {
      assert t.Entry(s.pid, j).used == s.Entry(s.pid, j).used;
    }
    SameFreeSlot(a, b, 2);
  }

  /** A file that was opened in a free slot and closed again leaves the slots as they were. */
  lemma ReclosedIsSame(disk: Disk, s: State, t: State, name: seq<Byte>, fd: nat)
    requires ValidState(disk.img, s) && s.Entry(s.pid, fd).used
    requires var slot := OpenStep(disk, s, name).ret; slot >= 0 && Reclosed(s, t, slot)
    ensures SameUse(s, t, fd) && t.currDir == s.currDir
  {
    var slot := FreeSlot(s.Fdt(s.pid), 2);
    assert !s.Entry(s.pid, slot).used;
  }

  /** What an entry's own name opens. */
  lemma OpenedText(disk: Disk, s: State, i: nat)
    requires disk.Valid() && ValidState(disk.img, s) && i < |disk.dir| && IsFile(disk.dir[i].Name())
    ensures var name := disk.dir[i].Name();
            var o := OpenStep(disk, s, name);
            && (o.ret == -1 <==> FreeSlot(s.Fdt(s.pid), 2) == MAX_FD)
            && (o.ret != -1 && disk.dir[Lookup(disk.dir, name)].filetype != 1 ==>
                  o.state.Entry(o.state.pid, o.ret).kind != Directory
                  && Everything(disk, o.state, o.ret, []) == TextOf(disk, name))
  {
    hide Listing, Flat;
    var name := disk.dir[i].Name();
    CStringUnique(name, NAME_LENGTH, |name|);
    assert name[..|name|] == name;
    if OpenStep(disk, s, name).ret != -1 {
      OpenStartsAtZero(disk, s, name);
      EverythingAfterOpen(disk, s, name, []);
    }
  }

  /** One call of `do_one_file` from `main`, with an array of its own. */
  method SearchFile(k: Kernel, pattern: seq<Byte>, name: seq<Byte>, cell: Byte, ghost i: nat, ghost fd: nat)
    returns (code: int, out: seq<Byte>)
    requires k.Valid() && NUL !in pattern && k.State().Entry(k.State().pid, fd).used
    requires i < |k.Disk().dir| && name == k.Disk().dir[i].Name() && IsFile(name) && Searchable(k.Disk(), name)
    modifies k`currDir, k.allPcbs
    ensures k.Valid() && SameUse(old(k.State()), k.State(), fd) && k.State().currDir == old(k.State()).currDir
    ensures if FreeSlot(old(k.State()).Fdt(old(k.State()).pid), 2) == MAX_FD
            then code == -1 && out == Ascii(OPEN_FAILED)
            else code == 0 && out == PrintedFor(name, TextOf(k.Disk(), name), pattern, cell)
  {
    hide Output, Scanned, Reclosed, Everything, Ascii;
    ghost var disk, s := k.Disk(), k.State();
    OpenedText(disk, s, i);
    var data := new Byte[BUFSIZE + 1];
    data[BUFSIZE] := cell;
    code, out := DoOneFile(k, pattern, name, data);
    if code == 0 {
      ReclosedIsSame(disk, s, k.State(), name, fd);
    }
  }

  /** The next name through the open directory, at the front of the buffer. */
  method NextName(k: Kernel, fd: nat, buf: array<Byte>) returns (cnt: int)
    requires Streaming(k, fd) && KindAt(k, fd) == Directory && buf.Length == NAME_LENGTH + 1
    modifies k`currDir, k.allPcbs, buf
    ensures k.Valid() && 0 <= cnt <= NAME_LENGTH
    ensures var s := old(k.State());
            && k.State() == DirReadStep(k.Disk(), s).state && cnt == DirReadStep(k.Disk(), s).ret
            && (s.currDir < |k.Disk().dir| ==> buf[..cnt] == k.Disk().dir[s.currDir].Name())
  {
    ghost var s := k.State();
    cnt := k.SysRead(fd, buf, 0, NAME_LENGTH);
    assert ReadStep(k.Disk(), s, fd, NAME_LENGTH) == DirReadStep(k.Disk(), s);
    ghost var data := DirReadStep(k.Disk(), s).data;
    assert s.currDir < |k.Disk().dir| ==> buf[..][0..|data|] == data;
  }

  /** How far `main` has come: entry `i` is next and everything before it is printed. */
  ghost predicate Printed(disk: Disk, s: State, t: State, fd: nat, pattern: seq<Byte>,
                          cells: nat -> Byte, i: nat, out: seq<Byte>) {
    && SameUse(s, t, fd) && t.currDir == i <= |disk.dir|
    && if FreeSlot(s.Fdt(s.pid), 2) == MAX_FD then out == [] && (SomeFile(disk, 0) <==> SomeFile(disk, i))
       else Found(disk, pattern, cells, 0) == out + Found(disk, pattern, cells, i)
  }

  lemma NothingPrinted(disk: Disk, s: State, fd: nat, pattern: seq<Byte>, cells: nat -> Byte)
    requires s.currDir == 0
    ensures Printed(disk, s, s, fd, pattern, cells, 0, [])
  {
    assert [] + Found(disk, pattern, cells, 0) == Found(disk, pattern, cells, 0);
  }

  /** The end of the directory, or a name that is empty, ends the search. */
  lemma AllPrinted(disk: Disk, s: State, t: State, fd: nat, pattern: seq<Byte>,
                   cells: nat -> Byte, i: nat, out: seq<Byte>)
    requires Printed(disk, s, t, fd, pattern, cells, i, out) && DirReadStep(disk, t).ret == 0
    ensures if FreeSlot(s.Fdt(s.pid), 2) == MAX_FD then out == [] && !SomeFile(disk, 0)
            else out == Found(disk, pattern, cells, 0)
    ensures Finished(disk, s, pattern, cells, 0, out)
  {
    assert out + [] == out;
    if !SomeFile(disk, 0) { NoFileNothingFound(disk, pattern, cells, 0); }
  }

  lemma OneEntry(disk: Disk, pattern: seq<Byte>, cells: nat -> Byte, i: nat)
    requires i < |disk.dir| && disk.dir[i].Name() != []
    ensures var name := disk.dir[i].Name();
            && (SomeFile(disk, i) <==> IsFile(name) || SomeFile(disk, i + 1))
            && Found(disk, pattern, cells, i)
               == if IsFile(name)
                  then PrintedFor(name, TextOf(disk, name), pattern, cells(i)) + Found(disk, pattern, cells, i + 1)
                  else Found(disk, pattern, cells, i + 1)
  {
    hide PrintedFor, TextOf, IsFile;
    assert [] + Found(disk, pattern, cells, i + 1) == Found(disk, pattern, cells, i + 1);
  }

  /** A name that starts with a dot is passed over. */
  lemma DotPassed(disk: Disk, s: State, t: State, fd: nat, pattern: seq<Byte>,
                  cells: nat -> Byte, i: nat, out: seq<Byte>)
    requires Printed(disk, s, t, fd, pattern, cells, i, out) && DirReadStep(disk, t).ret > 0
    requires !IsFile(disk.dir[i].Name())
    ensures Printed(disk, s, DirReadStep(disk, t).state, fd, pattern, cells, i + 1, out)
  {
    hide Found, SomeFile, FreeSlot;
    OneEntry(disk, pattern, cells, i);
  }

  /** A file adds its matching lines; without a slot it is the first. */
  lemma FilePrinted(disk: Disk, s: State, t: State, u: State, fd: nat, pattern: seq<Byte>,
                    cells: nat -> Byte, i: nat, out: seq<Byte>)
    requires Printed(disk, s, t, fd, pattern, cells, i, out) && DirReadStep(disk, t).ret > 0
    requires IsFile(disk.dir[i].Name()) && SameUse(t, u, fd) && u.currDir == i + 1
    ensures var name := disk.dir[i].Name();
            if FreeSlot(s.Fdt(s.pid), 2) == MAX_FD then out == [] && SomeFile(disk, 0)
            else Printed(disk, s, u, fd, pattern, cells, i + 1,
                         out + PrintedFor(name, TextOf(disk, name), pattern, cells(i)))
  {
    hide PrintedFor, TextOf, Found, SomeFile, FreeSlot;
    var name := disk.dir[i].Name();
    OneEntry(disk, pattern, cells, i);
    ConcatAssociates(out, PrintedFor(name, TextOf(disk, name), pattern, cells(i)), Found(disk, pattern, cells, i + 1));
  }

  lemma PrintedMeans(disk: Disk, s: State, t: State, fd: nat, pattern: seq<Byte>,
                     cells: nat -> Byte, i: nat, out: seq<Byte>)
    requires Printed(disk, s, t, fd, pattern, cells, i, out)
    ensures t.currDir == i <= |disk.dir| && t.pid == s.pid && SameUse(s, t, fd)
    ensures FreeSlot(t.Fdt(t.pid), 2) == FreeSlot(s.Fdt(s.pid), 2)
  {
    SameUseSameSlot(s, t, fd);
  }

  lemma SameUseTwice(s: State, t: State, u: State, fd: nat)
    requires SameUse(s, t, fd) && SameUse(t, u, fd)
    ensures SameUse(s, u, fd)
  {
  }

  lemma StillReadable(disk: Disk, s: State, t: State, fd: nat)
    requires Readable(disk, s, fd) && s.Entry(s.pid, fd).kind == Directory
    requires SameUse(s, t, fd) && ValidState(disk.img, t)
    ensures Readable(disk, t, fd) && t.Entry(t.pid, fd).kind == Directory
  {
  }

  /** Reading the directory leaves the slots alone. */
  lemma NextIsSame(disk: Disk, t: State, fd: nat)
    ensures var o := DirReadStep(disk, t);
            && SameUse(t, o.state, fd) && o.state.pid == t.pid && o.state.Fdt(t.pid) == t.Fdt(t.pid)
            && (o.ret > 0 ==> t.currDir < |disk.dir| && o.state.currDir == t.currDir + 1
                              && o.ret == |disk.dir[t.currDir].Name()|)
  {
  }

  /** The scanned lines of all files; without a slot for them, a message at the first one. */
  ghost predicate Finished(disk: Disk, s: State, pattern: seq<Byte>, cells: nat -> Byte, code: int, out: seq<Byte>) {
    if FreeSlot(s.Fdt(s.pid), 2) == MAX_FD && SomeFile(disk, 0) then code == 3 && out == Ascii(OPEN_FAILED)
    else code == 0 && out == Found(disk, pattern, cells, 0)
  }

  lemma FinishedClean(disk: Disk, s: State, pattern: seq<Byte>, cells: nat -> Byte, code: int, out: seq<Byte>)
    requires Finished(disk, s, pattern, cells, code, out)
    ensures code == 0 && AllClean(disk, pattern) ==> out == AllMatching(disk, pattern, 0)
  {
    hide AllClean, Found, AllMatching;
    if code == 0 && AllClean(disk, pattern) { CleanFilesAreFound(disk, pattern, cells, 0); }
  }

  lemma NoFileNothingFound(disk: Disk, pattern: seq<Byte>, cells: nat -> Byte, i: nat)
    requires !SomeFile(disk, i)
    ensures Found(disk, pattern, cells, i) == []
    decreases |disk.dir| - i
  {
    if i < |disk.dir| && disk.dir[i].Name() != [] { NoFileNothingFound(disk, pattern, cells, i + 1); }
  }

  /** One turn of the loop in `main`. */
  method SearchNext(k: Kernel, fd: nat, buf: array<Byte>, pattern: seq<Byte>, cells: nat -> Byte, i: nat,
                    ghost out: seq<Byte>, ghost s: State)
    returns (more: bool, code: int, printed: seq<Byte>)
    requires Streaming(k, fd) && KindAt(k, fd) == Directory && buf.Length == NAME_LENGTH + 1 && NUL !in pattern
    requires Printed(k.Disk(), s, k.State(), fd, pattern, cells, i, out)
    requires forall j :: 0 <= j < |k.Disk().dir| && IsFile(k.Disk().dir[j].Name()) ==>
               Searchable(k.Disk(), k.Disk().dir[j].Name())
    modifies k`currDir, k.allPcbs, buf
    ensures k.Valid()
    ensures if more
            then i < |k.Disk().dir| && Streaming(k, fd) && KindAt(k, fd) == Directory
                 && Printed(k.Disk(), s, k.State(), fd, pattern, cells, i + 1, out + printed)
            else Finished(k.Disk(), s, pattern, cells, code, out + printed)
  {
    hide Ascii, PrintedFor, Searchable, Found, SomeFile, SameUse, Printed, Lookup, TextOf, DirReadStep;
    more, code, printed := true, 0, [];
    assert out + [] == out;
    ghost var disk, t := k.Disk(), k.State();
    PrintedMeans(disk, s, t, fd, pattern, cells, i, out);
    NextIsSame(disk, t, fd);
    var cnt := NextName(k, fd, buf);
    ghost var u := k.State();
    StillReadable(disk, t, u, fd);
    if cnt == 0 {
      AllPrinted(disk, s, t, fd, pattern, cells, i, out);
      return false, 0, [];
    }
    var name := buf[..cnt];
    if buf[0] == DOT {
      DotPassed(disk, s, t, fd, pattern, cells, i, out);
      return;
    }
    buf[cnt] := NUL;
    code, printed := SearchFile(k, pattern, name, cells(i), i, fd);
    StillReadable(disk, u, k.State(), fd);
    SameUseTwice(t, u, k.State(), fd);
    FilePrinted(disk, s, t, k.State(), fd, pattern, cells, i, out);
    if code != 0 {
      assert [] + printed == printed;
      return false, 3, printed;
    }
  }

  lemma DotOpens(disk: Disk, s: State)
    requires disk.Valid() && ValidState(disk.img, s) && OpenStep(disk, s, [DOT]).ret != -1
    requires var i := Lookup(disk.dir, [DOT]); i >= 0 ==> disk.dir[i].filetype == 1
    ensures var o := OpenStep(disk, s, [DOT]);
            o.state.currDir == 0 && o.state.Entry(o.state.pid, o.ret).kind == Directory
  {
    OpenStartsAtZero(disk, s, [DOT]);
  }

  /**
   * `main`: if there is a slot for the files, what the scan finds in all of them, in index order, which is exactly
   * their matching lines when they are clean; without a slot it stops at the first file.
   */
  method GrepAll(k: Kernel, pattern: seq<Byte>, cells: nat -> Byte) returns (code: int, out: seq<Byte>)
    requires k.Valid() && NUL !in pattern
    requires var i := Lookup(k.Disk().dir, [DOT]); i >= 0 ==> k.Disk().dir[i].filetype == 1
    requires forall i :: 0 <= i < |k.Disk().dir| && IsFile(k.Disk().dir[i].Name()) ==>
               Searchable(k.Disk(), k.Disk().dir[i].Name())
    modifies k`currDir, k.allPcbs
    ensures k.Valid()
    ensures var o := OpenStep(k.Disk(), old(k.State()), [DOT]);
            if o.ret == -1 then code == 2 && out == Ascii(DIRECTORY_FAILED)
            else Finished(k.Disk(), o.state, pattern, cells, code, out)
    ensures code == 0 && AllClean(k.Disk(), pattern) ==> out == AllMatching(k.Disk(), pattern, 0)
  {
    hide Ascii, AllClean, Found, Searchable, Printed, Finished, OpenStep, Streaming;
    ghost var disk, was := k.Disk(), k.State();
    var fd := Programs.Open(k, [DOT]);
    if fd == -1 { return 2, Ascii(DIRECTORY_FAILED); }
    DotOpens(disk, was);
    ghost var s := k.State();
    var i: nat := 0;
    NothingPrinted(disk, s, fd, pattern, cells);
    code, out := 0, [];
    var buf, more := new Byte[NAME_LENGTH + 1], true;
    while more
      invariant k.Valid()
      invariant more ==> Streaming(k, fd) && KindAt(k, fd) == Directory
      invariant more ==> Printed(disk, s, k.State(), fd, pattern, cells, i, out)
      invariant !more ==> Finished(disk, s, pattern, cells, code, out)
      decreases more, |disk.dir| - i
    {
      var printed;
      more, code, printed := SearchNext(k, fd, buf, pattern, cells, i, out, s);
      out := out + printed;
      i := i + 1;
    }
    FinishedClean(disk, s, pattern, cells, code, out);
  }
}
