/** What the kernel and its programs make of an image that was written block after block. */
module WrittenFiles {
  import opened Bytes
  import opened FileSystem
  import opened DiskImages
  import Descriptors
  import opened Kernel
  import Programs

  /** Entries have known types and lead to inodes that are there. */
  predicate Complete(l: Layout) {
    Writable(l) && forall k :: 0 <= k < |l.entries| ==> l.entries[k].filetype <= 2 && l.entries[k].inode < |l.inodes|
  }

  /** The image and the directory that the kernel parses from it. */
  function DiskOf(l: Layout, around: int -> Byte): Descriptors.Disk {
    Descriptors.Disk(Written(l, around), BootBlockOf(Written(l, around)).direntries)
  }

  lemma DiskIsValid(l: Layout, around: int -> Byte)
    requires Complete(l)
    ensures DiskOf(l, around).dir == l.entries && DiskOf(l, around).Valid()
  {
    hide Written;
    ParsingGivesBackEntries(l, around);
    forall k | 0 <= k < |l.entries| ensures Written(l, around).ValidInode(l.entries[k].inode) {
      ContentIsText(l, around, l.entries[k].inode);
    }
  }

  /** A program that opens a written file and reads it to its end gets the written text. */
  lemma WrittenTextIsRead(l: Layout, around: int -> Byte, s: Descriptors.State, name: seq<Byte>)
    requires Complete(l)
    requires var i := Lookup(l.entries, name); i >= 0 && l.entries[i].filetype == 2
    requires var disk := DiskOf(l, around);
             Descriptors.ValidState(disk.img, s) && Descriptors.OpenStep(disk, s, name).ret != -1
    ensures var o := Descriptors.OpenStep(DiskOf(l, around), s, name);
            Programs.Everything(DiskOf(l, around), o.state, o.ret, []) ==
            TextOf(l, l.inodes[l.entries[Lookup(l.entries, name)].inode])
  {
    hide Written, Descriptors.OpenStep;
    DiskIsValid(l, around);
    ContentIsText(l, around, l.entries[Lookup(l.entries, name)].inode);
    Programs.EverythingAfterOpen(DiskOf(l, around), s, name, []);
  }

  /** `cat` of a written file prints what was written. */
  method CatWritten(k: Kernel, l: Layout, around: int -> Byte, name: seq<Byte>) returns (code: int, out: seq<Byte>)
    requires Complete(l) && k.Valid() && k.Disk() == DiskOf(l, around)
    requires var i := Lookup(l.entries, name); i >= 0 && l.entries[i].filetype == 2
    modifies k`currDir, k.allPcbs
    ensures k.Valid()
    ensures code == 0 ==> out == TextOf(l, l.inodes[l.entries[Lookup(l.entries, name)].inode])
    ensures code != 0 <==> Descriptors.FreeSlot(old(k.State()).Fdt(old(k.State()).pid), 2) == Descriptors.MAX_FD
  {
    hide Written, TextOf, Programs.Everything;
    DiskIsValid(l, around);
    ghost var s := k.State();
    Descriptors.OpenFailsExactly(DiskOf(l, around), s, name);
    if Descriptors.OpenStep(DiskOf(l, around), s, name).ret != -1 {
      WrittenTextIsRead(l, around, s, name);
    }
    code, out := Programs.Cat(k, name);
  }

  /** The number in four bytes, lowest first. */
  function FromBytes(b: seq<Byte>): int
    requires |b| == 4
  {
    b[0] as int + 0x100 * (b[1] as int) + 0x1_0000 * (b[2] as int) + 0x100_0000 * (b[3] as int)
  }

  lemma ElfBytes(b: seq<Byte>)
    requires |b| == 4
    ensures FromBytes(b) == ELF_MAGIC <==> b == [0x7F, 0x45, 0x4C, 0x46]
    ensures FromBytes(b) == WORD_SPAN - 1 <==> b == [0xFF, 0xFF, 0xFF, 0xFF]
  {
  }

  lemma FirstByte(img: Image, inode: nat, k: nat)
    requires k < img.FileLength(inode) && k < BLOCK_SIZE
    ensures img.Content(inode)[k] == img.mem(img.BlockStart(inode, 0) + k)
  {
  }

  lemma ContentLength(img: Image, inode: nat)
    ensures |img.Content(inode)| == img.FileLength(inode)
  {
  }

  lemma FirstBytes(img: Image, inode: nat, w: nat)
    requires 4 * w + 4 <= img.FileLength(inode) && 4 * w + 4 <= BLOCK_SIZE
    ensures ProgramWord(img, inode, w) == FromBytes(img.Content(inode)[4 * w..4 * w + 4])
  {
    hide *;
    ContentLength(img, inode);
    ProgramStart(img, inode, w);
    FirstByte(img, inode, 4 * w);
    FirstByte(img, inode, 4 * w + 1);
    FirstByte(img, inode, 4 * w + 2);
    FirstByte(img, inode, 4 * w + 3);
    SameFour(img, img.Content(inode), img.BlockStart(inode, 0), 4 * w);
  }

  lemma SameFour(img: Image, text: seq<Byte>, start: int, k: nat)
    requires k + 4 <= |text|
    requires text[k] == img.mem(start + k) && text[k + 1] == img.mem(start + (k + 1))
    requires text[k + 2] == img.mem(start + (k + 2)) && text[k + 3] == img.mem(start + (k + 3))
    ensures var a := start + k;
            FromBytes(text[k..k + 4]) == img.mem(a) as int + 0x100 * (img.mem(a + 1) as int)
                                         + 0x1_0000 * (img.mem(a + 2) as int) + 0x100_0000 * (img.mem(a + 3) as int)
  {
  }

  lemma ProgramStart(img: Image, inode: nat, w: nat)
    ensures var a := img.BlockStart(inode, 0) + 4 * w;
            ProgramWord(img, inode, w) == img.mem(a) as int + 0x100 * (img.mem(a + 1) as int)
                                          + 0x1_0000 * (img.mem(a + 2) as int) + 0x100_0000 * (img.mem(a + 3) as int)
  {
  }

  /** `exec_check` looks at the file itself: it wants the ELF mark in front and an entry point other than -1 at 24. */
  lemma ExecutableExactly(img: Image, inode: nat)
    requires img.FileLength(inode) >= 28
    ensures IsExecutable(img, inode) <==>
            var text := img.Content(inode);
            text[..4] == [0x7F, 0x45, 0x4C, 0x46] && text[24..28] != [0xFF, 0xFF, 0xFF, 0xFF]
  {
    hide ProgramWord, FromBytes;
    FirstBytes(img, inode, 0);
    FirstBytes(img, inode, 6);
    var text := img.Content(inode);
    assert text[0..4] == text[..4];
    ElfBytes(text[..4]);
    ElfBytes(text[24..28]);
  }
}
