/** The one directory cursor of the kernel: what moves it, and what directory reads return over whole runs. */
module Directories {
  import opened Bytes
  import opened FileSystem
  import opened Descriptors

  /** An open directory of the running process. */
  predicate OpenDirectory(s: State, fd: int) {
    2 <= fd < MAX_FD && s.Entry(s.pid, fd).used && s.Entry(s.pid, fd).kind == Directory
  }

  /**
   * The calls that reach the directory operations: a successful open of a directory by a name that starts with
   * a dot, a close or a read of an open directory, and a halt with one open.
   */
  predicate ActsOnDirectory(disk: Disk, s: State, ev: Event) {
    match ev
    case Open(name) =>
      var i := Lookup(disk.dir, name);
      i >= 0 && FreeSlot(s.Fdt(s.pid), 2) < MAX_FD && disk.dir[i].filetype == 1 && CharAt(name, 0) == DOT
    case Close(fd) => OpenDirectory(s, fd)
    case Read(fd, nbytes) => OpenDirectory(s, fd)
    case Execute(ok) => false
    case Halt(next) => exists fd :: 2 <= fd < MAX_FD && OpenDirectory(s, fd)
  }

  /** The closing loop rewinds the cursor exactly when it closes a directory. */
  lemma {:induction false} CloseFromRewinds(disk: Disk, s: State, from: nat)
    requires ValidState(disk.img, s) && from <= MAX_FD
    ensures CloseFrom(s, from).currDir ==
            if exists fd :: from <= fd < MAX_FD && OpenDirectory(s, fd) then 0 else s.currDir
    decreases MAX_FD - from
  {
    if from < MAX_FD {
      var t := CloseStep(s, from).state;
      CloseKeepsValid(disk, s, from);
      CloseFromRewinds(disk, t, from + 1);
      CloseLeavesOthers(s, from);
    }
  }

  lemma CloseLeavesOthers(s: State, fd: int)
    ensures var t := CloseStep(s, fd).state;
            && t.pid == s.pid && t.currDir == (if OpenDirectory(s, fd) then 0 else s.currDir)
            && forall j: int :: j != fd ==> (OpenDirectory(t, j) <==> OpenDirectory(s, j))
  {
    forall j: int | j != fd ensures OpenDirectory(CloseStep(s, fd).state, j) <==> OpenDirectory(s, j) {
      assert CloseStep(s, fd).state.Entry(s.pid, j) == s.Entry(s.pid, j);
    }
  }

  /** Where a call leaves the cursor. */
  function CursorAfter(disk: Disk, s: State, ev: Event): nat {
    if !ActsOnDirectory(disk, s, ev) then s.currDir
    else if ev.Read? && s.currDir < |disk.dir| then s.currDir + 1
    else 0
  }

  lemma CursorFollows(disk: Disk, s: State, ev: Event)
    requires disk.Valid() && ValidState(disk.img, s) && ValidEvent(ev)
    ensures Step(disk, s, ev).state.currDir == CursorAfter(disk, s, ev)
  {
    match ev
    case Open(name) =>
    case Close(fd) => CloseLeavesOthers(s, fd);
    case Read(fd, nbytes) => TerminalsAreNoDirectories(disk, s, fd);
    case Execute(ok) =>
    case Halt(next) =>
      CloseFromRewinds(disk, s, 0);
      assert forall fd: int :: OpenDirectory(s, fd) ==> 0 <= fd < MAX_FD;
  }

  lemma TerminalsAreNoDirectories(disk: Disk, s: State, fd: int)
    requires ValidState(disk.img, s)
    ensures s.Entry(s.pid, fd).used && s.Entry(s.pid, fd).kind == Directory ==> OpenDirectory(s, fd)
  {
    assert 0 <= fd < MAX_FD ==> ValidEntry(disk.img, fd, s.pcbs[s.pid].fdt[fd]);
  }

  /**
   * A call of any process leaves the directory cursor where it is if and only if it does not act on a directory, or
   * the cursor is at the start and no entry is read.
   */
  lemma CursorStaysExactly(disk: Disk, s: State, ev: Event)
    requires disk.Valid() && ValidState(disk.img, s) && ValidEvent(ev)
    ensures Step(disk, s, ev).state.currDir == s.currDir <==>
            !ActsOnDirectory(disk, s, ev) || (s.currDir == 0 && (ev.Read? ==> disk.dir == []))
  {
    CursorFollows(disk, s, ev);
  }

  /** What one directory read returns: the number of bytes and the name. */
  datatype DirRead = DirRead(ret: int, name: seq<Byte>)

  /** Directory entry `k`, behind the last one the empty answer, and then all over again. */
  function Listed(dir: seq<Dentry>, k: nat): DirRead {
    var i := k % (|dir| + 1);
    if i == |dir| then DirRead(0, []) else DirRead(|dir[i].Name()|, dir[i].Name())
  }

  /** The answers so far, after one more call: a rewind forgets them, a read adds one. */
  function Noted(disk: Disk, s: State, ev: Event, earlier: seq<DirRead>): seq<DirRead> {
    if !ActsOnDirectory(disk, s, ev) then earlier
    else if ev.Read? then
      var o := ReadStep(disk, s, ev.fd, ev.nbytes);
      earlier + [DirRead(o.ret, o.data)]
    else []
  }

  /** The answers of all directory reads, of any process, since a directory was last opened, closed or halted with. */
  ghost function DirReads(disk: Disk, es: seq<Event>): seq<DirRead>
    requires ValidRun(disk, es)
  {
    if es == [] then []
    else Noted(disk, Descriptors.Run(disk, es[..|es| - 1]), es[|es| - 1], DirReads(disk, es[..|es| - 1]))
  }

  /** The answers are the listing from its start, and the cursor counts them. */
  predicate Enumerates(dir: seq<Dentry>, seen: seq<DirRead>, cursor: nat) {
    cursor == |seen| % (|dir| + 1) && forall k :: 0 <= k < |seen| ==> seen[k] == Listed(dir, k)
  }

  /** A cursor that counts the reads is moved on by one more, and the read returns the entry it pointed to. */
  lemma OneMoreRead(dir: seq<Dentry>, n: nat)
    ensures var c := n % (|dir| + 1);
            && Listed(dir, n) == (if c < |dir| then DirRead(|dir[c].Name()|, dir[c].Name()) else DirRead(0, []))
            && (n + 1) % (|dir| + 1) == if c < |dir| then c + 1 else 0
  {
    ModStep(n, |dir| + 1);
  }

  lemma ReadReturnsListed(disk: Disk, s: State, fd: int, nbytes: int, n: nat)
    requires ValidState(disk.img, s) && OpenDirectory(s, fd) && s.currDir == n % (|disk.dir| + 1)
    ensures var o := ReadStep(disk, s, fd, nbytes);
            DirRead(o.ret, o.data) == Listed(disk.dir, n) && o.state.currDir == (n + 1) % (|disk.dir| + 1)
  {
    OneMoreRead(disk.dir, n);
  }

  lemma StepEnumerates(disk: Disk, s: State, ev: Event, seen: seq<DirRead>)
    requires disk.Valid() && ValidState(disk.img, s) && ValidEvent(ev) && Enumerates(disk.dir, seen, s.currDir)
    ensures Enumerates(disk.dir, Noted(disk, s, ev, seen), Step(disk, s, ev).state.currDir)
  {
    hide Listed, ReadStep, OpenDirectory;
    CursorFollows(disk, s, ev);
    if ActsOnDirectory(disk, s, ev) && ev.Read? {
      ReadReturnsListed(disk, s, ev.fd, ev.nbytes, |seen|);
    }
  }

  /**
   * Over every run of all processes, the directory reads since the last rewind return the entries in index order,
   * each once, then 0, and then start again, and the cursor counts them.
   */
  lemma {:induction false} DirectoryIsEnumerated(disk: Disk, es: seq<Event>)
    requires ValidRun(disk, es)
    ensures Enumerates(disk.dir, DirReads(disk, es), Descriptors.Run(disk, es).currDir)
  {
    if es != [] {
      var rest := es[..|es| - 1];
      DirectoryIsEnumerated(disk, rest);
      StepEnumerates(disk, Descriptors.Run(disk, rest), es[|es| - 1], DirReads(disk, rest));
    }
  }

  /** From call `from` on, only reads of slot `fd` by process `p` act on a directory. */
  ghost predicate OnlyReader(disk: Disk, es: seq<Event>, from: nat, p: nat, fd: int)
    requires ValidRun(disk, es)
  {
    |es| <= from ||
    (OnlyReader(disk, es[..|es| - 1], from, p, fd) &&
     var s, ev := Descriptors.Run(disk, es[..|es| - 1]), es[|es| - 1];
     ActsOnDirectory(disk, s, ev) ==> s.pid == p && ev.Read? && ev.fd == fd)
  }

  /** The answers that slot `fd` of process `p` has had from its directory since call `from`. */
  ghost function AnswersTo(disk: Disk, es: seq<Event>, from: nat, p: nat, fd: int): seq<DirRead>
    requires ValidRun(disk, es)
  {
    if |es| <= from then []
    else
      var s, ev := Descriptors.Run(disk, es[..|es| - 1]), es[|es| - 1];
      var earlier := AnswersTo(disk, es[..|es| - 1], from, p, fd);
      if s.pid == p && ev.Read? && ev.fd == fd && OpenDirectory(s, fd) then Noted(disk, s, ev, earlier) else earlier
  }

  /** After its rewind the only reader of a directory gets every entry once in index order, then 0, and over again. */
  lemma {:induction false} OnlyReaderEnumerates(disk: Disk, es: seq<Event>, from: nat, p: nat, fd: int)
    requires ValidRun(disk, es) && from <= |es| && OnlyReader(disk, es, from, p, fd)
    requires DirReads(disk, es[..from]) == []
    ensures AnswersTo(disk, es, from, p, fd) == DirReads(disk, es)
    ensures forall k :: 0 <= k < |AnswersTo(disk, es, from, p, fd)| ==>
              AnswersTo(disk, es, from, p, fd)[k] == Listed(disk.dir, k)
  {
    hide Listed, ReadStep;
    DirectoryIsEnumerated(disk, es);
    if |es| == from {
      assert es[..from] == es;
    } else {
      assert es[..|es| - 1][..from] == es[..from];
      OnlyReaderEnumerates(disk, es[..|es| - 1], from, p, fd);
    }
  }
}
