/**
 * The file descriptor layer as a state machine over values: what one system call does to the
 * process table, and what every run of system calls keeps.
 */
module Descriptors {
  import opened Bytes
  import opened FileSystem

  const MAX_FD := 8
  const PCB_COUNT := 6

  /** Which table of operations `fop_` points to. */
  datatype Kind = Rtc | Directory | Regular | Terminal

  datatype FdEntry = FdEntry(used: bool, kind: Kind, filename: seq<Byte>, inode: nat, bytesRead: nat)

  const CLOSED := FdEntry(false, Rtc, [], 0, 0)

  datatype Pcb = Pcb(inUse: bool, fdt: seq<FdEntry>)

  /** `all_pcbs`, the running process, and the single directory cursor. */
  datatype State = State(pcbs: seq<Pcb>, pid: nat, currDir: nat) {
    /** The table of process `p`. */
    function Fdt(p: nat): seq<FdEntry> {
      if p < |pcbs| then pcbs[p].fdt else []
    }

    /** Slot `fd` of process `p`; whatever is not in the tables counts as closed. */
    function Entry(p: nat, fd: int): FdEntry {
      if 0 <= fd < |Fdt(p)| then Fdt(p)[fd] else CLOSED
    }

    function WithFdt(fdt: seq<FdEntry>): State {
      if pid < |pcbs| then this.(pcbs := pcbs[pid := pcbs[pid].(fdt := fdt)]) else this
    }

    function WithEntry(fd: int, e: FdEntry): State {
      if 0 <= fd < |Fdt(pid)| then WithFdt(Fdt(pid)[fd := e]) else this
    }
  }

  function KindOf(filetype: nat): Kind {
    if filetype == 0 then Rtc else if filetype == 1 then Directory else Regular
  }

  /** The image together with the directory entries copied out of it. */
  datatype Disk = Disk(img: Image, dir: seq<Dentry>) {

    /** Entries have known types and valid inodes. */
    ghost predicate Valid() {
      && |dir| <= MAX_DENTRIES
      && forall i :: 0 <= i < |dir| ==> dir[i].filetype <= 2 && img.ValidInode(dir[i].inode)
    }
  }

  /** What holds of slot `fd` of any process: only an open regular file has moved its cursor. */
  ghost predicate ValidEntry(img: Image, fd: int, e: FdEntry) {
    && e.bytesRead < WORD_SPAN
    && (!(e.used && e.kind == Regular) ==> e.bytesRead == 0)
    && (e.used ==> (e.kind == Terminal <==> fd < 2))
    && (e.used && e.kind == Regular ==> img.ValidInode(e.inode))
  }

  ghost predicate ValidFdt(img: Image, fdt: seq<FdEntry>) {
    |fdt| == MAX_FD && forall fd :: 0 <= fd < MAX_FD ==> ValidEntry(img, fd, fdt[fd])
  }

  ghost predicate ValidState(img: Image, s: State) {
    && |s.pcbs| == PCB_COUNT && s.pid < PCB_COUNT
    && forall p :: 0 <= p < PCB_COUNT ==> ValidFdt(img, s.pcbs[p].fdt)
  }

  datatype Outcome = Outcome(state: State, ret: int, data: seq<Byte>)

  /** The lowest unused slot from `from` on, or 8. */
  function FreeSlot(fdt: seq<FdEntry>, from: nat): (r: nat)
    requires from <= MAX_FD
    ensures from <= r <= MAX_FD && (r < |fdt| && r < MAX_FD ==> !fdt[r].used)
    ensures forall i :: from <= i < r && i < |fdt| ==> fdt[i].used
    decreases MAX_FD - from, fdt
  {
    if from == MAX_FD || from >= |fdt| || !fdt[from].used then from else FreeSlot(fdt, from + 1)
  }

  /** The lowest free process table index, or 6. */
  function FreePcb(pcbs: seq<Pcb>, from: nat): (r: nat)
    requires from <= |pcbs|
    ensures from <= r <= |pcbs| && (r < |pcbs| ==> !pcbs[r].inUse)
    ensures forall i :: from <= i < r ==> pcbs[i].inUse
    decreases |pcbs| - from
  {
    if from == |pcbs| || !pcbs[from].inUse then from else FreePcb(pcbs, from + 1)
  }

  function OpenStep(disk: Disk, s: State, name: seq<Byte>): Outcome
  {
    var i := Lookup(disk.dir, name);
    if i < 0 then Outcome(s, -1, [])
    else
      var slot := FreeSlot(s.Fdt(s.pid), 2);
      if slot == MAX_FD then Outcome(s, -1, [])
      else
        var d := disk.dir[i];
        var e := s.Entry(s.pid, slot).(used := true, kind := KindOf(d.filetype),
                                          filename := Padded(d.Name()), inode := d.inode);
        var t := s.WithEntry(slot, e);
        Outcome(if e.kind == Directory && CharAt(name, 0) == DOT then t.(currDir := 0) else t, slot, [])
  }

  function CloseStep(s: State, fd: int): Outcome
  {
    if fd <= 1 || fd >= MAX_FD || !s.Entry(s.pid, fd).used then Outcome(s, -1, [])
    else
      var e := s.Entry(s.pid, fd);
      match e.kind
      case Regular => Outcome(s.WithEntry(fd, e.(used := false, bytesRead := 0)), 0, [])
      case Directory => Outcome(s.WithEntry(fd, e.(used := false)).(currDir := 0), 0, [])
      case _ => Outcome(s.WithEntry(fd, e.(used := false)), 0, [])
  }

  /** `file_read` behind `file_read_helper`: the return value is added to the 32-bit cursor, even -1. */
  function FileReadStep(disk: Disk, s: State, fd: int, nbytes: int): Outcome
  {
    var e := s.Entry(s.pid, fd);
    var data := if nbytes < 0 || e.bytesRead == disk.img.FileLength(e.inode) then []
                else Delivered(disk.img, e.inode, e.bytesRead, nbytes);
    var ret := if nbytes < 0 then -1 else |data|;
    Outcome(s.WithEntry(fd, e.(bytesRead := Unsigned32(e.bytesRead + ret))), ret, data)
  }

  function DirReadStep(disk: Disk, s: State): Outcome {
    if s.currDir < |disk.dir| then
      var name := disk.dir[s.currDir].Name();
      Outcome(s.(currDir := s.currDir + 1), |name|, name)
    else
      Outcome(s.(currDir := 0), 0, [])
  }

  /** `sys_read` on every descriptor but 0, whose data come from the keyboard. */
  function ReadStep(disk: Disk, s: State, fd: int, nbytes: int): Outcome
  {
    if fd < 0 || fd >= MAX_FD || fd == 1 || !s.Entry(s.pid, fd).used then Outcome(s, -1, [])
    else
      match s.Entry(s.pid, fd).kind
      case Regular => FileReadStep(disk, s, fd, nbytes)
      case Directory => DirReadStep(disk, s)
      case _ => Outcome(s, 0, [])
  }

  /** The table `init_pcb` leaves: every slot closed with its cursor at 0, then stdin and stdout. */
  function InitFdt(fdt: seq<FdEntry>): (r: seq<FdEntry>)
    ensures |r| == |fdt|
  {
    seq(|fdt|, i requires 0 <= i < |fdt| =>
      fdt[i].(used := i < 2, kind := if i < 2 then Terminal else fdt[i].kind, bytesRead := 0))
  }

  /**
   * `sys_execute` as far as the process table: the first free process is initialised; it stays in
   * use and becomes the running process exactly when the program is found and loaded (`ok`).
   */
  function ExecuteStep(s: State, ok: bool): Outcome
  {
    var p := FreePcb(s.pcbs, 0);
    if p == |s.pcbs| then Outcome(s, -1, [])
    else
      var t := s.(pcbs := s.pcbs[p := Pcb(ok, InitFdt(s.pcbs[p].fdt))]);
      if ok then Outcome(t.(pid := p), 0, []) else Outcome(t, -1, [])
  }

  /** The closing loop of `sys_halt` over slots `fd..8`. */
  function CloseFrom(s: State, fd: nat): (t: State)
    requires fd <= MAX_FD
    ensures t.pid == s.pid && |t.pcbs| == |s.pcbs|
    decreases MAX_FD - fd, s
  {
    if fd == MAX_FD then s
    else
      var t := CloseStep(s, fd).state;
      CloseFrom(t, fd + 1)
  }

  /** `sys_halt` as far as the tables; which process runs next is the caller's choice. */
  function HaltStep(s: State, next: nat): Outcome
  {
    var t := CloseFrom(s, 0);
    if s.pid >= |t.pcbs| then Outcome(s, 0, [])
    else Outcome(t.(pcbs := t.pcbs[s.pid := t.pcbs[s.pid].(inUse := false)], pid := next), 0, [])
  }

  datatype Event =
    | Open(name: seq<Byte>)
    | Close(fd: int)
    | Read(fd: int, nbytes: int)
    | Execute(ok: bool)
    | Halt(next: nat)

  /** System calls with 32-bit arguments; descriptor 0 is read by the keyboard's own model. */
  predicate ValidEvent(ev: Event) {
    match ev
    case Read(fd, nbytes) => fd != 0 && -0x8000_0000 <= nbytes < 0x8000_0000
    case Halt(next) => next < PCB_COUNT
    case _ => true
  }

  function Step(disk: Disk, s: State, ev: Event): Outcome
  {
    match ev
    case Open(name) => OpenStep(disk, s, name)
    case Close(fd) => CloseStep(s, fd)
    case Read(fd, nbytes) => ReadStep(disk, s, fd, nbytes)
    case Execute(ok) => ExecuteStep(s, ok)
    case Halt(next) => HaltStep(s, next)
  }

  lemma EntryKeepsValid(disk: Disk, s: State, fd: int, e: FdEntry)
    requires ValidState(disk.img, s) && 0 <= fd < MAX_FD && ValidEntry(disk.img, fd, e)
    ensures ValidState(disk.img, s.WithEntry(fd, e))
  {
  }

  lemma OpenKeepsValid(disk: Disk, s: State, name: seq<Byte>)
    requires disk.Valid() && ValidState(disk.img, s)
    ensures ValidState(disk.img, OpenStep(disk, s, name).state)
  {
    var i := Lookup(disk.dir, name);
    var slot := FreeSlot(s.Fdt(s.pid), 2);
    if i >= 0 && slot < MAX_FD {
      var d := disk.dir[i];
      EntryKeepsValid(disk, s, slot, s.Entry(s.pid, slot).(used := true, kind := KindOf(d.filetype),
                                          filename := Padded(d.Name()), inode := d.inode));
    }
  }

  lemma CloseKeepsValid(disk: Disk, s: State, fd: int)
    requires ValidState(disk.img, s)
    ensures ValidState(disk.img, CloseStep(s, fd).state)
  {
    if !(fd <= 1 || fd >= MAX_FD || !s.Entry(s.pid, fd).used) {
      EntryKeepsValid(disk, s, fd, s.Entry(s.pid, fd).(used := false, bytesRead := 0));
      assert s.Entry(s.pid, fd).kind != Regular ==>
          s.Entry(s.pid, fd).(used := false) == s.Entry(s.pid, fd).(used := false, bytesRead := 0);
    }
  }

  lemma ReadKeepsValid(disk: Disk, s: State, fd: int, nbytes: int)
    requires ValidState(disk.img, s) && fd != 0
    ensures ValidState(disk.img, ReadStep(disk, s, fd, nbytes).state)
  {
    if 2 <= fd < MAX_FD && s.Entry(s.pid, fd).used && s.Entry(s.pid, fd).kind == Regular {
      var o := FileReadStep(disk, s, fd, nbytes);
      EntryKeepsValid(disk, s, fd, o.state.Entry(s.pid, fd));
    }
  }

  lemma {:induction false} CloseFromKeepsValid(disk: Disk, s: State, fd: nat)
    requires ValidState(disk.img, s) && fd <= MAX_FD
    ensures ValidState(disk.img, CloseFrom(s, fd))
    decreases MAX_FD - fd
  {
    if fd < MAX_FD {
      CloseKeepsValid(disk, s, fd);
      CloseFromKeepsValid(disk, CloseStep(s, fd).state, fd + 1);
    }
  }

  /** Every system call keeps the table valid: in particular a closed slot has its cursor at 0. */
  lemma StepKeepsValid(disk: Disk, s: State, ev: Event)
    requires disk.Valid() && ValidState(disk.img, s) && ValidEvent(ev)
    ensures ValidState(disk.img, Step(disk, s, ev).state)
  {
    match ev
    case Open(name) => OpenKeepsValid(disk, s, name);
    case Close(fd) => CloseKeepsValid(disk, s, fd);
    case Read(fd, nbytes) => ReadKeepsValid(disk, s, fd, nbytes);
    case Execute(ok) =>
    case Halt(next) => CloseFromKeepsValid(disk, s, 0);
  }

  /** The zeroed tables the kernel starts with. */
  function ZeroState(): State {
    var zeroPcb := Pcb(false, seq(MAX_FD, _ => FdEntry(false, Rtc, [], 0, 0)));
    State(seq(PCB_COUNT, _ => zeroPcb), 0, 0)
  }

  ghost predicate ValidRun(disk: Disk, es: seq<Event>) {
    disk.Valid() && forall i :: 0 <= i < |es| ==> ValidEvent(es[i])
  }

  ghost function After(disk: Disk, s: State, ev: Event): (t: State)
    requires disk.Valid() && ValidState(disk.img, s) && ValidEvent(ev)
    ensures ValidState(disk.img, t)
  {
    StepKeepsValid(disk, s, ev);
    Step(disk, s, ev).state
  }

  /** The state after a run of system calls of all processes, in the order they happened. */
  ghost function Run(disk: Disk, es: seq<Event>): (s: State)
    requires ValidRun(disk, es)
    ensures ValidState(disk.img, s)
  {
    if es == [] then ZeroState() else After(disk, Run(disk, es[..|es| - 1]), es[|es| - 1])
  }

  /** The call acts on slot `fd` of process `p`. */
  ghost predicate Touches(disk: Disk, s: State, ev: Event, p: nat, fd: nat)
    requires ValidState(disk.img, s) && ValidEvent(ev)
  {
    match ev
    case Open(name) => s.pid == p && OpenStep(disk, s, name).ret == fd
    case Close(f) => s.pid == p && f == fd
    case Read(f, nbytes) => s.pid == p && f == fd
    case Execute(ok) => FreePcb(s.pcbs, 0) == p
    case Halt(next) => s.pid == p
  }

  lemma {:induction false} CloseFromIsLocal(disk: Disk, s: State, fd: nat, p: nat)
    requires ValidState(disk.img, s) && fd <= MAX_FD && p < PCB_COUNT && p != s.pid
    ensures CloseFrom(s, fd).pcbs[p] == s.pcbs[p]
    decreases MAX_FD - fd
  {
    if fd < MAX_FD {
      CloseKeepsValid(disk, s, fd);
      CloseFromIsLocal(disk, CloseStep(s, fd).state, fd + 1, p);
    }
  }

  /**
   * A close fails if and only if its descriptor is standard input or output, out of range or not open, and then
   * changes nothing; otherwise just that slot becomes free.
   */
  lemma CloseFailsExactly(disk: Disk, s: State, fd: int)
    requires ValidState(disk.img, s)
    ensures var o := CloseStep(s, fd);
            && (o.ret == 0 || o.ret == -1) && o.data == []
            && (o.ret == -1 <==> !(2 <= fd < 8 && s.Entry(s.pid, fd).used))
            && (o.ret == -1 ==> o.state == s)
            && (o.ret == 0 ==> !o.state.Entry(s.pid, fd).used && o.state.Entry(s.pid, fd).bytesRead == 0)
            && o.state.pid == s.pid
            && forall p, i :: 0 <= p < PCB_COUNT && 0 <= i < MAX_FD && (p != s.pid || i != fd) ==>
                 o.state.Entry(p, i) == s.Entry(p, i)
  {
  }

  /** A read of a descriptor other than 0 fails exactly on 1, out of range, not open, or a file and a negative count. */
  lemma ReadFailsExactly(disk: Disk, s: State, fd: int, nbytes: int)
    requires ValidState(disk.img, s) && fd != 0
    ensures var o := ReadStep(disk, s, fd, nbytes);
            && (o.ret < 0 ==> o.ret == -1)
            && (o.ret == -1 <==> !(2 <= fd < 8 && s.Entry(s.pid, fd).used)
                                 || (s.Entry(s.pid, fd).kind == Regular && nbytes < 0))
            && (o.ret == -1 <==> |o.data| != o.ret)
  {
  }

  lemma OpenIsLocal(disk: Disk, s: State, name: seq<Byte>, p: nat, fd: nat)
    requires !(s.pid == p && OpenStep(disk, s, name).ret == fd)
    ensures OpenStep(disk, s, name).state.Entry(p, fd) == s.Entry(p, fd)
  {
  }

  lemma ReadIsLocal(disk: Disk, s: State, f: int, nbytes: int, p: nat, fd: nat)
    requires !(s.pid == p && f == fd)
    ensures ReadStep(disk, s, f, nbytes).state.Entry(p, fd) == s.Entry(p, fd)
  {
  }

  /** Descriptors never disturb each other: a call changes only the slots it acts on. */
  lemma Undisturbed(disk: Disk, s: State, ev: Event, p: nat, fd: nat)
    requires ValidState(disk.img, s) && ValidEvent(ev) && p < PCB_COUNT && fd < MAX_FD
    requires !Touches(disk, s, ev, p, fd)
    ensures var t := Step(disk, s, ev).state;
            t.Entry(p, fd) == s.Entry(p, fd)
  {
    match ev
    case Open(name) => OpenIsLocal(disk, s, name, p, fd);
    case Close(f) =>
    case Read(f, nbytes) => ReadIsLocal(disk, s, f, nbytes, p, fd);
    case Execute(ok) =>
    case Halt(next) => CloseFromIsLocal(disk, s, 0, p);
  }

  /**
   * What slot `fd` of process `p` has done since it was last opened: the bytes its reads returned,
   * and how many reads asked for a negative count.
   */
  datatype History = History(stream: seq<Byte>, negatives: nat)

  ghost function Record(disk: Disk, s: State, ev: Event, p: nat, fd: nat, h: History): History
    requires ValidState(disk.img, s) && ValidEvent(ev)
  {
    if !Touches(disk, s, ev, p, fd) then h
    else if ev.Read? then
      History(h.stream + ReadStep(disk, s, fd, ev.nbytes).data, h.negatives + if ev.nbytes < 0 then 1 else 0)
    else History([], 0)
  }

  ghost function HistoryOf(disk: Disk, es: seq<Event>, p: nat, fd: nat): History
    requires ValidRun(disk, es)
  {
    if es == [] then History([], 0)
    else Record(disk, Run(disk, es[..|es| - 1]), es[|es| - 1], p, fd, HistoryOf(disk, es[..|es| - 1], p, fd))
  }

  /** The open regular file in a slot, if there is one. */
  ghost predicate Reading(s: State, p: nat, fd: nat)
  {
    s.Entry(p, fd).used && s.Entry(p, fd).kind == Regular
  }

  /** Open fails, without any change, exactly when the name is unknown or slots 2 to 7 are all used. */
  lemma OpenFailsExactly(disk: Disk, s: State, name: seq<Byte>)
    requires ValidState(disk.img, s)
    ensures var o := OpenStep(disk, s, name);
            && (o.ret == -1 <==> Lookup(disk.dir, name) < 0
                                 || forall k :: 2 <= k < MAX_FD ==> s.Entry(s.pid, k).used)
            && (o.ret == -1 ==> o.state == s)
  {
    var slot := FreeSlot(s.Fdt(s.pid), 2);
    assert slot < MAX_FD ==> !s.Entry(s.pid, slot).used;
  }

  /**
   * Otherwise it takes the lowest unused slot, and although it never sets the cursor the file
   * starts at offset 0, because every closed slot has its cursor at 0.
   */
  lemma OpenStartsAtZero(disk: Disk, s: State, name: seq<Byte>)
    requires disk.Valid() && ValidState(disk.img, s)
    requires OpenStep(disk, s, name).ret != -1
    ensures var o := OpenStep(disk, s, name);
            var d := disk.dir[Lookup(disk.dir, name)];
            && o.ret == FreeSlot(s.Fdt(s.pid), 2) < MAX_FD
            && o.state.Entry(s.pid, o.ret) == FdEntry(true, KindOf(d.filetype), Padded(d.Name()), d.inode, 0)
  {
    var d := disk.dir[Lookup(disk.dir, name)];
    var slot := FreeSlot(s.Fdt(s.pid), 2);
    var e := s.Entry(s.pid, slot).(used := true, kind := KindOf(d.filetype),
                                      filename := Padded(d.Name()), inode := d.inode);
    assert ValidEntry(disk.img, slot, s.Entry(s.pid, slot));
    assert s.WithEntry(slot, e).Entry(s.pid, slot) == e;
  }

  /** What one read does to an open regular file and its cursor. */
  lemma ReadMovesCursor(disk: Disk, s: State, fd: nat, nbytes: int)
    requires ValidState(disk.img, s) && 2 <= fd < MAX_FD
    requires s.Entry(s.pid, fd).used && s.Entry(s.pid, fd).kind == Regular
    ensures var e := s.Entry(s.pid, fd);
            var o := ReadStep(disk, s, fd, nbytes);
            && o.ret == (if nbytes < 0 then -1 else |o.data|)
            && o.state == s.WithEntry(fd, e.(bytesRead := Unsigned32(e.bytesRead + o.ret)))
            && (nbytes < 0 ==> o.data == [])
            && (nbytes >= 0 && e.bytesRead <= disk.img.FileLength(e.inode) ==>
                  && o.data == Slice(disk.img.Content(e.inode), e.bytesRead, nbytes)
                  && o.state.Entry(s.pid, fd).bytesRead == e.bytesRead + |o.data| <= disk.img.FileLength(e.inode))
  {
    var e := s.Entry(s.pid, fd);
    ReadDataExact(disk.img, e.inode, e.bytesRead, if nbytes < 0 then 0 else nbytes);
    var o := FileReadStep(disk, s, fd, nbytes);
    assert o.state.Entry(s.pid, fd) == e.(bytesRead := Unsigned32(e.bytesRead + o.ret));
  }

  /** A read returns the next bytes and moves the cursor past them exactly when its count is not negative. */
  lemma ReadAdvancesExactly(disk: Disk, s: State, fd: nat, nbytes: int)
    requires ValidState(disk.img, s) && 2 <= fd < MAX_FD
    requires s.Entry(s.pid, fd).used && s.Entry(s.pid, fd).kind == Regular
    requires s.Entry(s.pid, fd).bytesRead <= disk.img.FileLength(s.Entry(s.pid, fd).inode)
    ensures var e := s.Entry(s.pid, fd);
            var o := ReadStep(disk, s, fd, nbytes);
            o.state == s.WithEntry(fd, e.(bytesRead := e.bytesRead + |o.data|)) <==> nbytes >= 0
  {
    ReadMovesCursor(disk, s, fd, nbytes);
    var e := s.Entry(s.pid, fd);
    assert s.WithEntry(fd, e.(bytesRead := e.bytesRead)).Entry(s.pid, fd).bytesRead == e.bytesRead;
    assert nbytes < 0 ==> ReadStep(disk, s, fd, nbytes).state.Entry(s.pid, fd).bytesRead == Unsigned32(e.bytesRead - 1);
  }

  /** At the end of the file every further read returns 0 and changes nothing. */
  lemma EndOfFileStays(disk: Disk, s: State, fd: nat, nbytes: nat)
    requires ValidState(disk.img, s) && 2 <= fd < MAX_FD
    requires s.Entry(s.pid, fd).used && s.Entry(s.pid, fd).kind == Regular
    requires s.Entry(s.pid, fd).bytesRead <= disk.img.FileLength(s.Entry(s.pid, fd).inode)
    ensures var e := s.Entry(s.pid, fd);
            ReadStep(disk, s, fd, nbytes) == Outcome(s, 0, []) <==>
              e.bytesRead == disk.img.FileLength(e.inode) || nbytes == 0
  {
    ReadMovesCursor(disk, s, fd, nbytes);
    var e := s.Entry(s.pid, fd);
    assert s.Fdt(s.pid)[fd := e] == s.Fdt(s.pid);
    assert s.WithEntry(fd, e) == s;
  }

  lemma {:induction false} CloseFromCloses(disk: Disk, s: State, from: nat, fd: nat)
    requires ValidState(disk.img, s) && 2 <= fd < MAX_FD && from <= MAX_FD
    ensures var t := CloseFrom(s, from);
            t.Entry(s.pid, fd).used == (s.Entry(s.pid, fd).used && fd < from)
    decreases MAX_FD - from
  {
    if from < MAX_FD {
      CloseKeepsValid(disk, s, from);
      CloseFromCloses(disk, CloseStep(s, from).state, from + 1, fd);
    }
  }

  /** A call that acts on a slot and leaves an open file there has read from it or just opened it. */
  lemma TouchedAndReading(disk: Disk, s: State, ev: Event, p: nat, fd: nat)
    requires disk.Valid() && ValidState(disk.img, s) && ValidEvent(ev) && p < PCB_COUNT && 2 <= fd < MAX_FD
    requires Touches(disk, s, ev, p, fd) && !ev.Read?
    ensures var t := After(disk, s, ev); Reading(t, p, fd) ==> t.Entry(p, fd).bytesRead == 0
  {
    match ev
    case Open(name) => OpenStartsAtZero(disk, s, name);
    case Close(f) =>
    case Execute(ok) =>
    case Halt(next) => CloseFromCloses(disk, s, 0, fd);
  }

  lemma ReadOfClosed(disk: Disk, s: State, fd: nat, nbytes: int)
    requires ValidState(disk.img, s) && 2 <= fd < MAX_FD
    requires !Reading(s, s.pid, fd)
    ensures var t := ReadStep(disk, s, fd, nbytes).state; t.pcbs == s.pcbs
  {
  }

  /** One read of an open regular file, as the slot sees it. */
  ghost predicate Advances(disk: Disk, s: State, t: State, p: nat, fd: nat, n: int, h: History, h': History) {
    && Reading(s, p, fd)
    && var e, e' := s.Entry(p, fd), t.Entry(p, fd);
       var count := |h'.stream| - |h.stream|;
       && h'.negatives == h.negatives + (if n < 0 then 1 else 0)
       && e' == e.(bytesRead := Unsigned32(e.bytesRead + if n < 0 then -1 else count))
       && (n < 0 ==> h'.stream == h.stream)
       && (n >= 0 && e.bytesRead <= disk.img.FileLength(e.inode) ==>
             && h'.stream == h.stream + Slice(disk.img.Content(e.inode), e.bytesRead, n)
             && e'.bytesRead == e.bytesRead + count <= disk.img.FileLength(e.inode))
  }

  /** All that can happen to a slot and its history in one step. */
  ghost predicate Follows(disk: Disk, s: State, t: State, p: nat, fd: nat, h: History, h': History) {
    || (t.Entry(p, fd) == s.Entry(p, fd) && h' == h)
    || !Reading(t, p, fd)
    || (t.Entry(p, fd).bytesRead == 0 && h' == History([], 0))
    || exists n: int :: Advances(disk, s, t, p, fd, n, h, h')
  }

  lemma StepFollows(disk: Disk, s: State, ev: Event, p: nat, fd: nat, h: History)
    requires disk.Valid() && ValidState(disk.img, s) && ValidEvent(ev) && p < PCB_COUNT && 2 <= fd < MAX_FD
    ensures Follows(disk, s, After(disk, s, ev), p, fd, h, Record(disk, s, ev, p, fd, h))
  {
    if !Touches(disk, s, ev, p, fd) {
      Undisturbed(disk, s, ev, p, fd);
    } else if !ev.Read? {
      TouchedAndReading(disk, s, ev, p, fd);
    } else {
      ReadFollows(disk, s, fd, ev.nbytes, h);
    }
  }

  lemma ReadFollows(disk: Disk, s: State, fd: nat, n: int, h: History)
    requires disk.Valid() && ValidState(disk.img, s) && 2 <= fd < MAX_FD
    ensures var o := ReadStep(disk, s, fd, n);
            Follows(disk, s, o.state, s.pid, fd, h, History(h.stream + o.data, h.negatives + if n < 0 then 1 else 0))
  {
    var o := ReadStep(disk, s, fd, n);
    if Reading(s, s.pid, fd) {
      ReadMovesCursor(disk, s, fd, n);
      assert Advances(disk, s, o.state, s.pid, fd, n, h,
                      History(h.stream + o.data, h.negatives + if n < 0 then 1 else 0));
    } else {
      ReadOfClosed(disk, s, fd, n);
    }
  }

  /** The cursor is the count of delivered bytes, less one for each negative read, in 32 bits. */
  ghost predicate CursorCounts(s: State, p: nat, fd: nat, h: History) {
    Reading(s, p, fd) ==> s.Entry(p, fd).bytesRead == Unsigned32(|h.stream| - h.negatives)
  }

  lemma WrappedSum(a: int, b: int)
    ensures Unsigned32(Unsigned32(a) + b) == Unsigned32(a + b)
  {
  }

  lemma CursorCountsFollows(disk: Disk, s: State, t: State, p: nat, fd: nat, h: History, h': History)
    requires Follows(disk, s, t, p, fd, h, h') && CursorCounts(s, p, fd, h)
    ensures CursorCounts(t, p, fd, h')
  {
    if n: int :| Advances(disk, s, t, p, fd, n, h, h') {
      WrappedSum(|h.stream| - h.negatives, if n < 0 then -1 else |h'.stream| - |h.stream|);
    }
  }

  lemma {:induction false} CursorCountsBytes(disk: Disk, es: seq<Event>, p: nat, fd: nat)
    requires ValidRun(disk, es) && p < PCB_COUNT && 2 <= fd < MAX_FD
    ensures CursorCounts(Run(disk, es), p, fd, HistoryOf(disk, es, p, fd))
  {
    if es != [] {
      var rest, ev := es[..|es| - 1], es[|es| - 1];
      var s, h := Run(disk, rest), HistoryOf(disk, rest, p, fd);
      CursorCountsBytes(disk, rest, p, fd);
      StepFollows(disk, s, ev, p, fd, h);
      CursorCountsFollows(disk, s, Run(disk, es), p, fd, h, HistoryOf(disk, es, p, fd));
    }
  }

  /** The bytes delivered are the prefix of the file that the cursor marks. */
  ghost predicate StreamsPrefix(disk: Disk, s: State, p: nat, fd: nat, stream: seq<Byte>) {
    Reading(s, p, fd) ==>
      var e := s.Entry(p, fd);
      e.bytesRead <= disk.img.FileLength(e.inode) && stream == disk.img.Content(e.inode)[..e.bytesRead]
  }

  lemma PrefixGrows(content: seq<Byte>, a: nat, n: nat)
    requires a <= |content|
    ensures var more := Slice(content, a, n);
            a + |more| <= |content| && content[..a] + more == content[..a + |more|]
  {
  }

  lemma StreamsPrefixFollows(disk: Disk, s: State, t: State, p: nat, fd: nat, h: History, h': History)
    requires Follows(disk, s, t, p, fd, h, h')
    requires h.negatives == 0 ==> StreamsPrefix(disk, s, p, fd, h.stream)
    ensures h'.negatives == 0 ==> StreamsPrefix(disk, t, p, fd, h'.stream)
  {
    if n: int :| Advances(disk, s, t, p, fd, n, h, h') && h'.negatives == 0 {
      var e := s.Entry(p, fd);
      PrefixGrows(disk.img.Content(e.inode), e.bytesRead, n);
    }
  }

  /**
   * Whatever the processes do in between, the results of the reads of one descriptor concatenate
   * to the prefix of its file that its cursor marks, as long as it saw no negative read.
   */
  lemma {:induction false} StreamIsPrefix(disk: Disk, es: seq<Event>, p: nat, fd: nat)
    requires ValidRun(disk, es) && p < PCB_COUNT && 2 <= fd < MAX_FD
    ensures var h := HistoryOf(disk, es, p, fd);
            h.negatives == 0 ==> StreamsPrefix(disk, Run(disk, es), p, fd, h.stream)
  {
    if es != [] {
      var rest, ev := es[..|es| - 1], es[|es| - 1];
      var s, h := Run(disk, rest), HistoryOf(disk, rest, p, fd);
      StreamIsPrefix(disk, rest, p, fd);
      StepFollows(disk, s, ev, p, fd, h);
      StreamsPrefixFollows(disk, s, Run(disk, es), p, fd, h, HistoryOf(disk, es, p, fd));
    }
  }

  /** A command that cannot be loaded leaves every process in use as it was, and the same one runs. */
  lemma FailedExecuteIsHarmless(s: State, p: nat)
    requires p < |s.pcbs| && s.pcbs[p].inUse
    ensures var o := ExecuteStep(s, false);
            o.ret == -1 && o.state.pid == s.pid && o.state.currDir == s.currDir &&
            |o.state.pcbs| == |s.pcbs| && o.state.pcbs[p] == s.pcbs[p]
  {
  }

  /** A new process starts with exactly stdin and stdout open, and takes the lowest free index. */
  lemma ExecuteOpensTerminals(s: State, fd: nat)
    requires FreePcb(s.pcbs, 0) < |s.pcbs|
    requires |s.pcbs[FreePcb(s.pcbs, 0)].fdt| == MAX_FD && fd < MAX_FD
    ensures var t := ExecuteStep(s, true).state;
            && t.pid == FreePcb(s.pcbs, 0)
            && (t.Entry(t.pid, fd).used <==> fd < 2)
            && (fd < 2 ==> t.Entry(t.pid, fd).kind == Terminal)
  {
    assert InitFdt(s.pcbs[FreePcb(s.pcbs, 0)].fdt)[fd].used == (fd < 2);
  }

  /** All open directories, of all processes, share one cursor: reading any two of them does exactly the same. */
  lemma DirectoriesShareCursor(disk: Disk, s: State, p: nat, fd1: nat, fd2: nat, nbytes1: int, nbytes2: int)
    requires ValidState(disk.img, s) && p < PCB_COUNT && 2 <= fd1 < MAX_FD && 2 <= fd2 < MAX_FD
    requires s.Entry(s.pid, fd1).used && s.Entry(s.pid, fd1).kind == Directory && s.Entry(p, fd2).used
    ensures var o1, o2 := ReadStep(disk, s, fd1, nbytes1), ReadStep(disk, s.(pid := p), fd2, nbytes2);
            && o1 == DirReadStep(disk, s)
            && (s.Entry(p, fd2).kind == Directory ==> o2 == o1.(state := o1.state.(pid := p)))
            && (s.Entry(p, fd2).kind != Directory ==> o2.state.currDir == s.currDir)
  {
  }
}
