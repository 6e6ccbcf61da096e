/** The user programs `cat` and `ls`, over the kernel's system calls. */
module Programs {
  import opened Bytes
  import opened FileSystem
  import opened Descriptors
  import opened Kernel

  const FILE_MISSING := "file not found\n"
  const DIRECTORY_FAILED := "directory open failed\n"

  /** The names `ls` meets from index `from` on: a read of an empty name looks like the end. */
  function Listing(dir: seq<Dentry>, from: nat): (names: seq<seq<Byte>>)
    decreases |dir| - from
  {
    if from >= |dir| || dir[from].Name() == [] then []
    else [dir[from].Name()] + Listing(dir, from + 1)
  }

  /** Every name once, in index order. */
  function AllNames(dir: seq<Dentry>): seq<seq<Byte>> {
    seq(|dir|, i requires 0 <= i < |dir| => dir[i].Name())
  }

  lemma {:induction false} ListingLength(dir: seq<Dentry>, from: nat)
    requires from <= |dir|
    ensures |Listing(dir, from)| <= |dir| - from
    ensures forall i :: 0 <= i < |Listing(dir, from)| ==> Listing(dir, from)[i] == dir[from + i].Name() != []
    ensures |Listing(dir, from)| < |dir| - from ==> dir[from + |Listing(dir, from)|].Name() == []
    decreases |dir| - from
  {
    if from < |dir| && dir[from].Name() != [] {
      ListingLength(dir, from + 1);
      var rest := Listing(dir, from + 1);
      assert Listing(dir, from) == [dir[from].Name()] + rest;
      forall i | 0 <= i < |rest| + 1 ensures ([dir[from].Name()] + rest)[i] == dir[from + i].Name() != [] {
        if i > 0 {
          assert rest[i - 1] == dir[(from + 1) + (i - 1)].Name();
        }
      }
    }
  }

  /** The listing is complete exactly when no entry has an empty name. */
  lemma ListingComplete(dir: seq<Dentry>)
    ensures Listing(dir, 0) == AllNames(dir) <==> forall i :: 0 <= i < |dir| ==> dir[i].Name() != []
  {
    ListingLength(dir, 0);
    if Listing(dir, 0) == AllNames(dir) {
      forall i | 0 <= i < |dir| ensures dir[i].Name() != [] {
        assert AllNames(dir)[i] == Listing(dir, 0)[i];
      }
    }
  }

  /** The bytes of a list of strings, each followed by `end`. */
  function Flat(names: seq<seq<Byte>>, end: seq<Byte>): seq<Byte> {
    if names == [] then [] else names[0] + end + Flat(names[1..], end)
  }

  /** What a freshly opened descriptor gives to a program that reads it until a read returns 0. */
  function Everything(disk: Disk, s: State, fd: nat, end: seq<Byte>): seq<Byte> {
    var e := s.Entry(s.pid, fd);
    match e.kind
    case Regular => Slice(disk.img.Content(e.inode), e.bytesRead, disk.img.FileLength(e.inode))
    case Directory => Flat(Listing(disk.dir, s.currDir), end)
    case _ => []
  }

  /** The reading loop has not failed and the rest of the stream is still to come. */
  ghost predicate Readable(disk: Disk, s: State, fd: nat) {
    var e := s.Entry(s.pid, fd);
    2 <= fd < MAX_FD && e.used && e.kind != Terminal && ValidState(disk.img, s) &&
    (e.kind == Regular ==> e.bytesRead <= disk.img.FileLength(e.inode))
  }

  /** How much is left to read. */
  ghost function Left(disk: Disk, s: State, fd: nat): int {
    var e := s.Entry(s.pid, fd);
    if e.kind == Regular then disk.img.FileLength(e.inode) - e.bytesRead
    else if e.kind == Directory then |disk.dir| - s.currDir
    else 0
  }

  /** `o` took the front off what slot `fd` still has to give; 0 means nothing is left. */
  ghost predicate TookFront(disk: Disk, s: State, o: Outcome, fd: nat, nbytes: nat, end: seq<Byte>) {
    && o.ret == |o.data|
    && (o.ret == 0 ==> Everything(disk, s, fd, end) == [])
    && (o.ret > 0 ==> 0 <= Left(disk, o.state, fd) < Left(disk, s, fd))
    && (o.ret > 0 ==> Everything(disk, s, fd, end) == o.data + end + Everything(disk, o.state, fd, end))
    && (s.Entry(s.pid, fd).kind != Directory ==> |o.data| <= nbytes)
    && (s.Entry(s.pid, fd).kind != Directory && |o.data| < nbytes ==> Everything(disk, o.state, fd, end) == [])
  }

  lemma FileTakesFront(disk: Disk, s: State, fd: nat, nbytes: nat)
    requires Readable(disk, s, fd) && nbytes > 0 && s.Entry(s.pid, fd).kind == Regular
    ensures TookFront(disk, s, ReadStep(disk, s, fd, nbytes), fd, nbytes, [])
  {
    hide Everything, Left, ReadStep, Slice, ValidState;
    ReadMovesCursor(disk, s, fd, nbytes);
    var e, o := s.Entry(s.pid, fd), ReadStep(disk, s, fd, nbytes);
    var e' := e.(bytesRead := e.bytesRead + |o.data|);
    SliceSplits(disk.img.Content(e.inode), e.bytesRead, nbytes);
    assert o.data + [] == o.data;
    EntryIsSet(s, fd, e');
    EverythingOfFile(disk, s, fd, e);
    EverythingOfFile(disk, o.state, fd, e');
  }

  lemma EverythingOfFile(disk: Disk, s: State, fd: nat, e: FdEntry)
    requires s.Entry(s.pid, fd) == e && e.kind == Regular
    ensures Everything(disk, s, fd, []) == Slice(disk.img.Content(e.inode), e.bytesRead, disk.img.FileLength(e.inode))
    ensures Left(disk, s, fd) == disk.img.FileLength(e.inode) - e.bytesRead
  {
    hide Slice;
  }

  lemma EntryIsSet(s: State, fd: nat, e: FdEntry)
    requires fd < |s.Fdt(s.pid)|
    ensures s.WithEntry(fd, e).Entry(s.pid, fd) == e
  {
  }

  lemma DirTakesFront(disk: Disk, s: State, fd: nat, nbytes: nat, end: seq<Byte>)
    requires Readable(disk, s, fd) && nbytes > 0 && s.Entry(s.pid, fd).kind == Directory
    ensures TookFront(disk, s, ReadStep(disk, s, fd, nbytes), fd, nbytes, end)
  {
    assert ReadStep(disk, s, fd, nbytes) == DirReadStep(disk, s);
  }

  /** One read of up to `nbytes` bytes takes the front off what is left. */
  lemma ReadTakesFront(disk: Disk, s: State, fd: nat, nbytes: nat, end: seq<Byte>)
    requires Readable(disk, s, fd) && nbytes > 0
    requires s.Entry(s.pid, fd).kind == Regular ==> end == []
    ensures var o := ReadStep(disk, s, fd, nbytes);
            && TookFront(disk, s, o, fd, nbytes, end)
            && Readable(disk, o.state, fd) && o.state.pid == s.pid
            && o.state.Entry(s.pid, fd).kind == s.Entry(s.pid, fd).kind
  {
    ReadKeepsValid(disk, s, fd, nbytes);
    match s.Entry(s.pid, fd).kind
    case Regular =>
      FileTakesFront(disk, s, fd, nbytes);
      ReadMovesCursor(disk, s, fd, nbytes);
    case Directory => DirTakesFront(disk, s, fd, nbytes, end);
    case _ =>
  }

  /** Reading the front of a file and then the rest is reading all of it. */
  lemma SliceSplits(content: seq<Byte>, offset: nat, n: nat)
    requires offset <= |content| && n > 0
    ensures var front := Slice(content, offset, n);
            && |front| == Min(n, |content| - offset)
            && (front == [] ==> Slice(content, offset, |content|) == [])
            && (|front| < n ==> Slice(content, offset + |front|, |content|) == [])
            && Slice(content, offset, |content|) == front + Slice(content, offset + |front|, |content|)
  {
  }

  lemma OpenedIsReadable(disk: Disk, s: State, name: seq<Byte>)
    requires disk.Valid() && ValidState(disk.img, s)
    requires OpenStep(disk, s, name).ret != -1
    ensures var o := OpenStep(disk, s, name);
            o.ret >= 0 && Readable(disk, o.state, o.ret) && o.state.pid == s.pid
  {
    hide ValidState, Lookup;
    OpenStartsAtZero(disk, s, name);
    OpenKeepsValid(disk, s, name);
  }

  /** Right after it is opened, a file is read from its start, and "." from the first entry. */
  lemma EverythingAfterOpen(disk: Disk, s: State, name: seq<Byte>, end: seq<Byte>)
    requires disk.Valid() && ValidState(disk.img, s)
    requires OpenStep(disk, s, name).ret != -1
    ensures var o := OpenStep(disk, s, name);
            var d := disk.dir[Lookup(disk.dir, name)];
            Everything(disk, o.state, o.ret, end) ==
              if d.filetype == 2 then disk.img.Content(d.inode)
              else if d.filetype == 0 then []
              else Flat(Listing(disk.dir, if CharAt(name, 0) == DOT then 0 else s.currDir), end)
  {
    OpenStartsAtZero(disk, s, name);
    var d := disk.dir[Lookup(disk.dir, name)];
    assert disk.img.Content(d.inode)[0..disk.img.FileLength(d.inode)] == disk.img.Content(d.inode);
  }

  /** Of what the running process can see, only its slot `fd` may differ. */
  ghost predicate Besides(s: State, t: State, fd: nat) {
    && t.pid == s.pid && t.currDir == s.currDir && |t.Fdt(s.pid)| == |s.Fdt(s.pid)|
    && forall j :: j != fd ==> t.Entry(s.pid, j) == s.Entry(s.pid, j)
  }

  lemma EntryBesides(s: State, fd: nat, e: FdEntry)
    ensures Besides(s, s.WithEntry(fd, e), fd)
  {
  }

  /** What is done to a file touches neither the other slots nor the directory cursor. */
  lemma OpenBesides(disk: Disk, s: State, name: seq<Byte>)
    requires ValidState(disk.img, s)
    ensures var o := OpenStep(disk, s, name);
            && (o.ret == -1 ==> o.state == s)
            && (o.ret >= 0 && o.state.Entry(s.pid, o.ret).kind != Directory ==> Besides(s, o.state, o.ret))
  {
    hide Lookup;
    var o := OpenStep(disk, s, name);
    if o.ret >= 0 {
      var d := disk.dir[Lookup(disk.dir, name)];
      EntryBesides(s, o.ret, s.Entry(s.pid, o.ret).(used := true, kind := KindOf(d.filetype),
                                                    filename := Padded(d.Name()), inode := d.inode));
    }
  }

  lemma ReadBesides(disk: Disk, s: State, fd: nat, nbytes: nat)
    ensures s.Entry(s.pid, fd).kind != Directory ==> Besides(s, ReadStep(disk, s, fd, nbytes).state, fd)
  {
    hide Delivered;
  }

  lemma CloseBesides(s: State, fd: nat)
    ensures s.Entry(s.pid, fd).kind != Directory ==> Besides(s, CloseStep(s, fd).state, fd)
    ensures CloseStep(s, fd).ret == 0 ==> !CloseStep(s, fd).state.Entry(s.pid, fd).used
  {
  }

  /** The descriptor of the running process can be read. */
  ghost predicate Streaming(k: Kernel, fd: nat)
    reads k, k.allPcbs
  {
    k.Valid() && Readable(k.Disk(), k.State(), fd)
  }

  /** What it still has to give. */
  ghost function Rest(k: Kernel, fd: nat, end: seq<Byte>): seq<Byte>
    reads k, k.allPcbs
  {
    Everything(k.Disk(), k.State(), fd, end)
  }

  ghost function Remaining(k: Kernel, fd: nat): int
    reads k, k.allPcbs
  {
    Left(k.Disk(), k.State(), fd)
  }

  ghost function KindAt(k: Kernel, fd: nat): Kind
    reads k, k.allPcbs
  {
    k.State().Entry(k.State().pid, fd).kind
  }

  /** `ece391_open`, with what it means for the reads that follow. */
  method Open(k: Kernel, name: seq<Byte>) returns (fd: int)
    requires k.Valid()
    modifies k`currDir, k.allPcbs
    ensures k.Valid()
    ensures fd == OpenStep(k.Disk(), old(k.State()), name).ret
    ensures fd != -1 ==> fd >= 0 && Streaming(k, fd)
    ensures k.State() == OpenStep(k.Disk(), old(k.State()), name).state
  {
    ghost var was := k.State();
    fd := k.SysOpen(name);
    if fd != -1 {
      OpenedIsReadable(k.Disk(), was, name);
    }
  }

  /** `ece391_read` on an open descriptor: the next bytes of the stream, or 0 at its end. */
  method Read(k: Kernel, fd: nat, buf: array<Byte>, at: nat, nbytes: nat, ghost end: seq<Byte>) returns (cnt: int)
    requires Streaming(k, fd)
    requires 0 < nbytes < 0x8000_0000 && at + nbytes <= buf.Length
    requires KindAt(k, fd) == Directory ==> at + NAME_LENGTH <= buf.Length
    requires KindAt(k, fd) == Regular ==> end == []
    modifies k`currDir, k.allPcbs, buf
    ensures Streaming(k, fd)
    ensures KindAt(k, fd) == old(KindAt(k, fd))
    ensures 0 <= cnt && at + cnt <= buf.Length
    ensures buf[..] == Overlay(old(buf[..]), at, buf[at..at + cnt])
    ensures cnt == 0 ==> old(Rest(k, fd, end)) == []
    ensures cnt > 0 ==> old(Rest(k, fd, end)) == buf[at..at + cnt] + end + Rest(k, fd, end)
    ensures cnt > 0 ==> 0 <= Remaining(k, fd) < old(Remaining(k, fd))
    ensures KindAt(k, fd) == Directory ==> cnt <= NAME_LENGTH
    ensures KindAt(k, fd) != Directory ==> cnt <= nbytes
    ensures KindAt(k, fd) != Directory && cnt < nbytes ==> Rest(k, fd, end) == []
    ensures KindAt(k, fd) != Directory ==> Besides(old(k.State()), k.State(), fd)
  {
    ReadBesides(k.Disk(), k.State(), fd, nbytes);
    ReadTakesFront(k.Disk(), k.State(), fd, nbytes, end);
    cnt := k.SysRead(fd, buf, at, nbytes);
  }

  /** The loop of `cat`. */
  method CopyOut(k: Kernel, fd: nat) returns (out: seq<Byte>)
    requires Streaming(k, fd)
    modifies k`currDir, k.allPcbs
    ensures Streaming(k, fd)
    ensures out == old(Rest(k, fd, []))
  {
    hide Streaming, Rest, Remaining;
    out := [];
    var buf := new Byte[1024];
    ghost var all := Rest(k, fd, []);
    while true
      invariant Streaming(k, fd)
      invariant all == out + Rest(k, fd, [])
      decreases Remaining(k, fd)
    {
      var cnt := Read(k, fd, buf, 0, 1024, []);
      if cnt == 0 { break; }
      var chunk := buf[0..cnt];
      assert chunk + [] == chunk;
      assert all == (out + chunk) + Rest(k, fd, []);
      out := out + chunk;
    }
  }

  method Cat(k: Kernel, name: seq<Byte>) returns (code: int, out: seq<Byte>)
    requires k.Valid()
    modifies k`currDir, k.allPcbs
    ensures k.Valid()
    ensures var o := OpenStep(k.Disk(), old(k.State()), name);
            if o.ret == -1 then code == 2 && out == Ascii(FILE_MISSING)
            else code == 0 && out == Everything(k.Disk(), o.state, o.ret, [])
  {
    var fd := Open(k, name);
    if fd == -1 { return 2, Ascii(FILE_MISSING); }
    out := CopyOut(k, fd);
    code := 0;
  }

  /** One turn of `ls`: the next name, ended by a newline in place of its terminator. */
  method ReadLine(k: Kernel, fd: nat, buf: array<Byte>) returns (cnt: int, line: seq<Byte>)
    requires Streaming(k, fd) && buf.Length == 33
    requires KindAt(k, fd) == Directory
    modifies k`currDir, k.allPcbs, buf
    ensures Streaming(k, fd)
    ensures KindAt(k, fd) == Directory
    ensures cnt >= 0
    ensures cnt == 0 ==> old(Rest(k, fd, [NEWLINE])) == []
    ensures cnt > 0 ==> old(Rest(k, fd, [NEWLINE])) == line + Rest(k, fd, [NEWLINE])
    ensures cnt > 0 ==> 0 <= Remaining(k, fd) < old(Remaining(k, fd))
  {
    line := [];
    cnt := Read(k, fd, buf, 0, 32, [NEWLINE]);
    if cnt > 0 {
      ghost var name := buf[0..cnt];
      buf[cnt] := NEWLINE;
      assert buf[0..cnt + 1] == name + [NEWLINE];
      line := buf[..cnt + 1];
    }
  }

  /** The loop of `ls`. */
  method ListOut(k: Kernel, fd: nat) returns (out: seq<Byte>)
    requires Streaming(k, fd)
    requires KindAt(k, fd) == Directory
    modifies k`currDir, k.allPcbs
    ensures Streaming(k, fd)
    ensures out == old(Rest(k, fd, [NEWLINE]))
  {
    hide Streaming, Rest, Remaining;
    out := [];
    var buf := new Byte[33];
    ghost var all := Rest(k, fd, [NEWLINE]);
    while true
      invariant Streaming(k, fd)
      invariant KindAt(k, fd) == Directory
      invariant all == out + Rest(k, fd, [NEWLINE])
      decreases Remaining(k, fd)
    {
      var cnt, line := ReadLine(k, fd, buf);
      if cnt == 0 { break; }
      out := out + line;
    }
  }

  /** `ls`; the entry named "." is a directory on every image the program is meant for. */
  method Ls(k: Kernel) returns (code: int, out: seq<Byte>)
    requires k.Valid()
    requires var i := Lookup(k.Disk().dir, [DOT]); i >= 0 ==> k.Disk().dir[i].filetype == 1
    modifies k`currDir, k.allPcbs
    ensures k.Valid()
    ensures if OpenStep(k.Disk(), old(k.State()), [DOT]).ret == -1 then code == 2 && out == Ascii(DIRECTORY_FAILED)
            else code == 0 && out == Flat(Listing(k.Disk().dir, 0), [NEWLINE])
  {
    ghost var was := k.State();
    var fd := Open(k, [DOT]);
    if fd == -1 { return 2, Ascii(DIRECTORY_FAILED); }
    EverythingAfterOpen(k.Disk(), was, [DOT], [NEWLINE]);
    OpenStartsAtZero(k.Disk(), was, [DOT]);
    out := ListOut(k, fd);
    code := 0;
  }
}
