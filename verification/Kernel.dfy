/** The kernel's file system calls, over the process table they update in place. */
module Kernel {
  import opened Bytes
  import opened FileSystem
  import opened Descriptors
  import Processes

  const ELF_MAGIC := 0x464C_457F
  const MAX_COMMAND := 32

  /** Word `w` of the first data block of a file. */
  function ProgramWord(img: Image, inode: nat, w: nat): nat {
    img.Word(BLOCK_WORDS * (1 + img.InodeCount() + img.Word(BLOCK_WORDS * (1 + inode) + 1)) + w)
  }

  /** `exec_check` is not -1: the ELF mark is there, and the entry point is not the error code. */
  predicate IsExecutable(img: Image, inode: nat) {
    ProgramWord(img, inode, 0) == ELF_MAGIC && ProgramWord(img, inode, 6) != WORD_SPAN - 1
  }

  predicate EndsWord(c: Byte) {
    c == SPACE || c == NUL || c == NEWLINE
  }

  /** The first position from `i` on that is not a space. */
  function AfterSpaces(s: seq<Byte>, i: nat): (r: nat)
    requires i <= |s|
    ensures i <= r <= |s| && CharAt(s, r) != SPACE
    ensures forall k :: i <= k < r ==> s[k] == SPACE
    decreases |s| - i
  {
    if i < |s| && s[i] == SPACE then AfterSpaces(s, i + 1) else i
  }

  /** The first position from `i` on that ends a word. */
  function WordEnd(s: seq<Byte>, i: nat): (r: nat)
    requires i <= |s|
    ensures i <= r <= |s| && EndsWord(CharAt(s, r))
    ensures forall k :: i <= k < r ==> !EndsWord(s[k])
    decreases |s| - i
  {
    if i < |s| && !EndsWord(s[i]) then WordEnd(s, i + 1) else i
  }

  /** The program name and the first argument of a command, if neither is too long. */
  datatype Command = TooLong | Command(name: seq<Byte>, arg: seq<Byte>)

  function CommandOf(s: seq<Byte>): Command {
    var a := AfterSpaces(s, 0);
    var b := WordEnd(s, a);
    var c := AfterSpaces(s, b);
    var d := WordEnd(s, c);
    if b - a > NAME_LENGTH || d - c > MAX_COMMAND then TooLong else Command(s[a..b], s[c..d])
  }

  method SkipSpaces(s: seq<Byte>, from: nat) returns (index: nat)
    requires from <= |s|
    ensures index == AfterSpaces(s, from)
  {
    index := from;
    while CharAt(s, index) == SPACE
      invariant index <= |s| && AfterSpaces(s, from) == AfterSpaces(s, index)
      decreases |s| - index
    {
      index := index + 1;
    }
  }

  /** Copies a word character by character and gives up at the first one too many. */
  method TakeWord(s: seq<Byte>, from: nat, limit: nat) returns (tooLong: bool, word: seq<Byte>, index: nat)
    requires from <= |s|
    ensures tooLong <==> WordEnd(s, from) - from > limit
    ensures !tooLong ==> index == WordEnd(s, from) && word == s[from..index]
  {
    tooLong, word, index := false, [], from;
    while !EndsWord(CharAt(s, index))
      invariant from <= index <= |s| && WordEnd(s, from) == WordEnd(s, index)
      invariant word == s[from..index] && |word| <= limit
      decreases |s| - index
    {
      if |word| + 1 > limit {
        tooLong := true;
        return;
      }
      word := word + [s[index]];
      index := index + 1;
    }
  }

  /** The part of `sys_execute` that cuts the command into words. */
  method ParseCommand(s: seq<Byte>) returns (r: Command)
    ensures r == CommandOf(s)
  {
    var index := SkipSpaces(s, 0);
    var tooLong, name, arg;
    tooLong, name, index := TakeWord(s, index, NAME_LENGTH);
    if tooLong { return TooLong; }
    index := SkipSpaces(s, index);
    tooLong, arg, index := TakeWord(s, index, MAX_COMMAND);
    if tooLong { return TooLong; }
    return Command(name, arg);
  }

  /** The command names a program that can be loaded. */
  predicate Loads(disk: Disk, command: seq<Byte>) {
    match CommandOf(command)
    case TooLong => false
    case Command(name, _) =>
      var i := Lookup(disk.dir, name);
      i >= 0 && IsExecutable(disk.img, disk.dir[i].inode)
  }

  class Kernel {
    const img: Image
    var boot: BootBlock
    var currDir: nat
    const allPcbs: array<Pcb>
    var pidCounter: nat

    ghost function Disk(): Disk
      reads this
    {
      Descriptors.Disk(img, boot.direntries)
    }

    ghost function State(): State
      reads this, allPcbs
    {
      Descriptors.State(allPcbs[..], pidCounter, currDir)
    }

    ghost predicate Valid()
      reads this, allPcbs
    {
      Disk().Valid() && ValidState(img, State())
    }

    /** The kernel after `dir_open(".")` at boot: the directory is parsed, all tables are zero. */
    constructor (img: Image)
      requires Descriptors.Disk(img, BootBlockOf(img).direntries).Valid()
      ensures Valid() && fresh(allPcbs) && this.img == img && boot == BootBlockOf(img) && State() == ZeroState()
    {
      this.img := img;
      allPcbs := new Pcb[PCB_COUNT](_ => ZeroState().pcbs[0]);
      currDir, pidCounter := 0, 0;
      boot := BootBlock(0, []);
      new;
      boot := ParseBootBlock(img);
      assert allPcbs[..] == ZeroState().pcbs;
    }

    /** One slot of the running process's table is overwritten. */
    method SetEntry(fd: nat, e: FdEntry)
      requires Valid() && fd < MAX_FD && ValidEntry(img, fd, e)
      modifies allPcbs
      ensures Valid() && State() == old(State()).WithEntry(fd, e)
    {
      EntryKeepsValid(Disk(), State(), fd, e);
      allPcbs[pidCounter] := allPcbs[pidCounter].(fdt := allPcbs[pidCounter].fdt[fd := e]);
      assert allPcbs[..] == old(State()).WithEntry(fd, e).pcbs;
    }

    method SysOpen(name: seq<Byte>) returns (r: int)
      requires Valid()
      modifies this`currDir, allPcbs
      ensures Valid()
      ensures var o := OpenStep(Disk(), old(State()), name); r == o.ret && State() == o.state
    {
      OpenKeepsValid(Disk(), State(), name);
      var i := ReadDentryByName(boot, name);
      if i == -1 { return -1; }
      // `read_dentry_by_index`
      var dentry := boot.direntries[i];
      var filename := StrNCpy(dentry.filename);
      ghost var s := State();
      for t := 2 to MAX_FD
        invariant Valid() && State() == s
        invariant FreeSlot(s.Fdt(s.pid), 2) == FreeSlot(s.Fdt(s.pid), t)
      {
        if !allPcbs[pidCounter].fdt[t].used {
          var e := allPcbs[pidCounter].fdt[t].(used := true, kind := KindOf(dentry.filetype),
                                               filename := filename, inode := dentry.inode);
          assert ValidEntry(img, t, s.Entry(s.pid, t));
          SetEntry(t, e);
          // `dir_open`
          if e.kind == Directory && CharAt(name, 0) == DOT {
            currDir := 0;
          }
          return t;
        }
      }
      return -1;
    }

    method SysClose(fd: int) returns (r: int)
      requires Valid()
      modifies this`currDir, allPcbs
      ensures Valid()
      ensures var o := CloseStep(old(State()), fd); r == o.ret && State() == o.state
    {
      CloseKeepsValid(Disk(), State(), fd);
      if fd <= 1 || fd >= MAX_FD { return -1; }
      var e := allPcbs[pidCounter].fdt[fd];
      assert e == State().Entry(pidCounter, fd) && ValidEntry(img, fd, e);
      if e.used {
        match e.kind {
          case Regular => e := e.(used := false, bytesRead := 0);
          case Directory => currDir := 0;
          case _ =>
        }
        SetEntry(fd, e.(used := false));
        return 0;
      }
      return -1;
    }

    /** `file_read_helper` and `file_read` on an open regular file. */
    method FileRead(fd: nat, buf: array<Byte>, at: nat, nbytes: int) returns (r: int)
      requires Valid() && 2 <= fd < MAX_FD && Reading(State(), pidCounter, fd)
      requires -0x8000_0000 <= nbytes < 0x8000_0000 && at + Max(nbytes, 0) <= buf.Length
      modifies allPcbs, buf
      ensures Valid()
      ensures var o := FileReadStep(Disk(), old(State()), fd, nbytes);
              r == o.ret && State() == o.state && buf[..] == Overlay(old(buf[..]), at, o.data)
    {
      var e := allPcbs[pidCounter].fdt[fd];
      assert e == State().Entry(pidCounter, fd) && ValidEntry(img, fd, e);
      if nbytes < 0 {
        r := -1;
      } else if e.bytesRead == img.FileLength(e.inode) {
        r := 0;
      } else {
        r := ReadData(img, e.inode, e.bytesRead, buf, at, nbytes);
      }
      SetEntry(fd, e.(bytesRead := Unsigned32(e.bytesRead + r)));
    }

    /** `dir_read`: one name per call, without its terminator, however small the buffer is. */
    method DirRead(buf: array<Byte>, at: nat) returns (r: int)
      requires Valid() && at + NAME_LENGTH <= buf.Length
      modifies this`currDir, buf
      ensures Valid()
      ensures var o := DirReadStep(Disk(), old(State()));
              r == o.ret && State() == o.state && buf[..] == Overlay(old(buf[..]), at, o.data)
    {
      if currDir < |boot.direntries| {
        var filename := StrNCpy(boot.direntries[currDir].filename);
        PaddedKeepsName(boot.direntries[currDir].Name());
        r := CopyName(filename, buf, at);
        currDir := currDir + 1;
      } else {
        currDir := 0;
        r := 0;
      }
    }

    method SysRead(fd: int, buf: array<Byte>, at: nat, nbytes: int) returns (r: int)
      requires Valid() && fd != 0
      requires -0x8000_0000 <= nbytes < 0x8000_0000 && at + Max(nbytes, 0) <= buf.Length
      requires State().Entry(pidCounter, fd).kind == Directory ==> at + NAME_LENGTH <= buf.Length
      modifies this`currDir, allPcbs, buf
      ensures Valid()
      ensures var o := ReadStep(Disk(), old(State()), fd, nbytes);
              r == o.ret && State() == o.state && buf[..] == Overlay(old(buf[..]), at, o.data)
    {
      if fd < 0 || fd >= MAX_FD || fd == 1 { return -1; }
      var e := allPcbs[pidCounter].fdt[fd];
      assert e == State().Entry(pidCounter, fd);
      if !e.used { return -1; }
      match e.kind {
        case Regular => r := FileRead(fd, buf, at, nbytes);
        case Directory => r := DirRead(buf, at);
        case _ => return 0;
      }
    }

    /** `get_free_pcb`, with 6 for its -1. */
    method GetFreePcb() returns (p: nat)
      requires Valid()
      ensures p == FreePcb(allPcbs[..], 0)
    {
      for i := 0 to PCB_COUNT
        invariant FreePcb(allPcbs[..], 0) == FreePcb(allPcbs[..], i)
      {
        if !allPcbs[i].inUse { return i; }
      }
      return PCB_COUNT;
    }

    /** `init_pcb`. */
    method InitPcb(p: nat)
      requires Valid() && p < PCB_COUNT
      modifies allPcbs
      ensures Valid()
      ensures State() == old(State()).(pcbs := old(allPcbs[..])[p := Pcb(true, InitFdt(old(allPcbs[p].fdt)))])
    {
      var fdt := allPcbs[p].fdt;
      ghost var was, goal := fdt, InitFdt(fdt);
      for i := 0 to MAX_FD
        invariant |fdt| == MAX_FD
        invariant forall k :: 0 <= k < MAX_FD ==> fdt[k] == if k < i then was[k].(used := false) else was[k]
      {
        fdt := fdt[i := fdt[i].(used := false)];
      }
      for i := 0 to MAX_FD
        invariant |fdt| == MAX_FD
        invariant forall k :: 0 <= k < MAX_FD ==>
          fdt[k] == if k < i then was[k].(used := false, bytesRead := 0) else was[k].(used := false)
      {
        fdt := fdt[i := fdt[i].(bytesRead := 0)];
      }
      fdt := fdt[0 := fdt[0].(kind := Terminal, used := true)];
      fdt := fdt[1 := fdt[1].(kind := Terminal, used := true)];
      assert fdt == goal;
      allPcbs[p] := Pcb(true, fdt);
      assert ValidFdt(img, goal);
      assert allPcbs[..] == old(allPcbs[..])[p := Pcb(true, goal)];
    }

    /** The middle of `sys_execute`: the command is parsed, looked up and checked for the ELF mark. */
    method FindProgram(command: seq<Byte>) returns (ok: bool)
      requires Valid()
      ensures ok <==> Loads(Disk(), command)
    {
      var c := ParseCommand(command);
      if c == TooLong { return false; }
      var i := ReadDentryByName(boot, c.name);
      return i != -1 && IsExecutable(img, boot.direntries[i].inode);
    }

    /** The failure paths of `sys_execute`: the process is given back and the caller runs on. */
    method Abandon(prevPid: nat)
      requires Valid() && prevPid < PCB_COUNT
      modifies this`pidCounter, allPcbs
      ensures Valid()
      ensures State() == Descriptors.State(
          old(allPcbs[..])[old(pidCounter) := old(allPcbs[..])[old(pidCounter)].(inUse := false)], prevPid, currDir)
    {
      ghost var table := allPcbs[..];
      allPcbs[pidCounter] := allPcbs[pidCounter].(inUse := false);
      assert allPcbs[..] == table[pidCounter := table[pidCounter].(inUse := false)];
      pidCounter := prevPid;
    }

    /** `sys_execute` up to the point where the new program would run: 0 if it is loaded. */
    method SysExecute(command: seq<Byte>) returns (r: int)
      requires Valid()
      modifies this`pidCounter, allPcbs
      ensures Valid()
      ensures var o := ExecuteStep(old(State()), Loads(Disk(), command)); r == o.ret && State() == o.state
      ensures r == -1 <==> !Loads(Disk(), command) || Processes.AllInUse(old(State()))
    {
      Processes.ExecuteFailsExactly(State(), Loads(Disk(), command));
      hide Loads, FreePcb, InitFdt;
      var prevPid := pidCounter;
      var p := GetFreePcb();
      if p == PCB_COUNT { return -1; }
      InitPcb(p);
      pidCounter := p;
      var ok := FindProgram(command);
      if ok { return 0; }
      Abandon(prevPid);
      return -1;
    }

    /** The part of `sys_halt` that releases the process; `next` is the process that runs on. */
    method Release(next: nat)
      requires Valid() && next < PCB_COUNT
      modifies this`currDir, this`pidCounter, allPcbs
      ensures Valid() && State() == HaltStep(old(State()), next).state
      ensures !Processes.InUse(State(), old(pidCounter))
    {
      ghost var s := State();
      for fd := 0 to MAX_FD
        invariant Valid() && pidCounter == s.pid
        invariant CloseFrom(s, 0) == CloseFrom(State(), fd)
      {
        var _ := SysClose(fd);
      }
      ghost var t := State();
      allPcbs[pidCounter] := allPcbs[pidCounter].(inUse := false);
      assert allPcbs[..] == t.pcbs[t.pid := t.pcbs[t.pid].(inUse := false)];
      pidCounter := next;
      Processes.HaltFreesProcess(Disk(), s, next, s.pid);
    }
  }
}
