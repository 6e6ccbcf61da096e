/**
 * File system images as a writer lays them out, block after block, and what the kernel reads from them: the
 * directory and the files that were written.
 */
module DiskImages {
  import opened Bytes
  import opened FileSystem

  const ENTRY_SIZE := 64
  const HEADER_SIZE := 64

  /** A file: how long it is, and the numbers of the data blocks that hold it, in order. */
  datatype Inode = Inode(length: nat, numbers: seq<nat>)

  /** A whole image before it is written. */
  datatype Layout = Layout(entries: seq<Dentry>, inodes: seq<Inode>, data: seq<seq<Byte>>)

  function Zeros(n: nat): seq<Byte> {
    seq(n, _ => NUL)
  }

  /** A 32-bit number, lowest byte first. */
  function LittleEndian(v: nat): (r: seq<Byte>)
    ensures |r| == 4
  {
    [(v % 256) as Byte, (v / 0x100 % 256) as Byte, (v / 0x1_0000 % 256) as Byte, (v / 0x100_0000 % 256) as Byte]
  }

  /** `s`, filled up with zeros. */
  function Filled(s: seq<Byte>, n: nat): (r: seq<Byte>)
    ensures |s| <= n ==> |r| == n
  {
    if |s| <= n then s + Zeros(n - |s|) else s
  }

  function Concat(parts: seq<seq<Byte>>): seq<Byte> {
    if parts == [] then [] else Concat(parts[..|parts| - 1]) + parts[|parts| - 1]
  }

  /** All parts have `n` bytes. */
  predicate Even(parts: seq<seq<Byte>>, n: nat) {
    forall k :: 0 <= k < |parts| ==> |parts[k]| == n
  }

  function Numbers(vs: seq<nat>): (r: seq<seq<Byte>>)
    ensures |r| == |vs| && Even(r, 4) && forall k :: 0 <= k < |vs| ==> r[k] == LittleEndian(vs[k])
  {
    seq(|vs|, k requires 0 <= k < |vs| => LittleEndian(vs[k]))
  }

  /** One directory entry: 32 bytes of name, type, inode number, and 24 bytes that are not used. */
  function EntryBytes(e: Dentry): (r: seq<Byte>)
    ensures |e.filename| == NAME_LENGTH ==> |r| == ENTRY_SIZE
  {
    e.filename + LittleEndian(e.filetype) + LittleEndian(e.inode) + Zeros(24)
  }

  function Entries(es: seq<Dentry>): (r: seq<seq<Byte>>)
    ensures |r| == |es| && forall k :: 0 <= k < |es| ==> r[k] == EntryBytes(es[k])
  {
    seq(|es|, k requires 0 <= k < |es| => EntryBytes(es[k]))
  }

  /** The boot block: the counts of entries, inodes and data blocks, filled up to 64 bytes, and the entries. */
  function BootBytes(l: Layout): seq<Byte> {
    Filled(Filled(Concat(Numbers([|l.entries|, |l.inodes|, |l.data|])), HEADER_SIZE) + Concat(Entries(l.entries)),
           BLOCK_SIZE)
  }

  /** An inode block: the length and the block numbers. */
  function InodeBytes(f: Inode): seq<Byte> {
    Filled(Concat(Numbers([f.length] + f.numbers)), BLOCK_SIZE)
  }

  function InodeBlocks(fs: seq<Inode>): (r: seq<seq<Byte>>)
    ensures |r| == |fs| && forall k :: 0 <= k < |fs| ==> r[k] == InodeBytes(fs[k])
  {
    seq(|fs|, k requires 0 <= k < |fs| => InodeBytes(fs[k]))
  }

  /** The boot block, the inodes and the data blocks, one after the other. */
  function Blocks(l: Layout): seq<seq<Byte>> {
    [BootBytes(l)] + InodeBlocks(l.inodes) + l.data
  }

  /** The image in memory; what lies around it does not matter. */
  function Written(l: Layout, around: int -> Byte): Image {
    var bytes := Concat(Blocks(l));
    Image(a => if 0 <= a < |bytes| then bytes[a] else around(a))
  }

  predicate WritableInode(l: Layout, f: Inode) {
    && |f.numbers| <= MAX_BLOCKS && f.length <= BLOCK_SIZE * |f.numbers|
    && forall k :: 0 <= k < |f.numbers| ==> f.numbers[k] < |l.data|
  }

  /** What fits the format: at most 63 entries, 32-bit numbers, whole data blocks, and block numbers that exist. */
  predicate Writable(l: Layout) {
    && |l.entries| <= MAX_DENTRIES && |l.inodes| < WORD_SPAN && |l.data| < WORD_SPAN && Even(l.data, BLOCK_SIZE)
    && (forall k :: 0 <= k < |l.entries| ==> |l.entries[k].filename| == NAME_LENGTH
                                             && l.entries[k].filetype < WORD_SPAN && l.entries[k].inode < WORD_SPAN)
    && forall k :: 0 <= k < |l.inodes| ==> WritableInode(l, l.inodes[k])
  }

  lemma {:induction false} ConcatAt(parts: seq<seq<Byte>>, n: nat, k: nat, j: nat)
    requires Even(parts, n) && k < |parts| && j < n
    ensures |Concat(parts)| == n * |parts| && n * k + j < n * |parts| && Concat(parts)[n * k + j] == parts[k][j]
  {
    var last := |parts| - 1;
    var rest := parts[..last];
    ConcatLength(rest, n);
    ConcatLength(parts, n);
    assert n * (last + 1) == n * last + n;
    if k < last {
      ConcatAt(rest, n, k, j);
    }
  }

  lemma {:induction false} ConcatLength(parts: seq<seq<Byte>>, n: nat)
    requires Even(parts, n)
    ensures |Concat(parts)| == n * |parts|
  {
    if parts != [] {
      ConcatLength(parts[..|parts| - 1], n);
      assert n * |parts| == n * (|parts| - 1) + n;
    }
  }

  /** Four bytes in the right order are the number. */
  lemma WordIs(img: Image, w: int, v: nat)
    requires v < WORD_SPAN && forall j :: 0 <= j < 4 ==> img.mem(4 * w + j) == LittleEndian(v)[j]
    ensures img.Word(w) == v
  {
    var b := LittleEndian(v);
    assert img.mem(4 * w + 0) == b[0] && img.mem(4 * w + 1) == b[1] && img.mem(4 * w + 2) == b[2];
    assert img.mem(4 * w + 3) == b[3];
  }

  lemma NumbersAt(vs: seq<nat>, k: nat, j: nat)
    requires k < |vs| && j < 4
    ensures |Concat(Numbers(vs))| == 4 * |vs| && Concat(Numbers(vs))[4 * k + j] == LittleEndian(vs[k])[j]
  {
    ConcatAt(Numbers(vs), 4, k, j);
  }

  lemma BootIsBlock(l: Layout)
    requires Writable(l)
    ensures |Concat(Numbers([|l.entries|, |l.inodes|, |l.data|]))| == 12
    ensures |Concat(Entries(l.entries))| == ENTRY_SIZE * |l.entries|
    ensures |BootBytes(l)| == BLOCK_SIZE
  {
    ConcatLength(Numbers([|l.entries|, |l.inodes|, |l.data|]), 4);
    ConcatLength(Entries(l.entries), ENTRY_SIZE);
  }

  lemma InodeIsBlock(l: Layout, f: Inode)
    requires WritableInode(l, f)
    ensures |Concat(Numbers([f.length] + f.numbers))| == 4 * (1 + |f.numbers|) && |InodeBytes(f)| == BLOCK_SIZE
  {
    ConcatLength(Numbers([f.length] + f.numbers), 4);
  }

  lemma BlocksAreEven(l: Layout)
    requires Writable(l)
    ensures Even(Blocks(l), BLOCK_SIZE)
  {
    BootIsBlock(l);
    forall k | 0 <= k < |l.inodes| ensures |InodeBytes(l.inodes[k])| == BLOCK_SIZE {
      InodeIsBlock(l, l.inodes[k]);
    }
  }

  /** Byte `j` of block `b` of the image. */
  lemma WrittenAt(l: Layout, around: int -> Byte, b: nat, j: nat)
    requires Writable(l) && b < |Blocks(l)| && j < BLOCK_SIZE
    ensures |Blocks(l)[b]| == BLOCK_SIZE && Written(l, around).mem(BLOCK_SIZE * b + j) == Blocks(l)[b][j]
  {
    hide Blocks, Writable;
    BlocksAreEven(l);
    ConcatAt(Blocks(l), BLOCK_SIZE, b, j);
  }

  lemma InodeByte(l: Layout, f: Inode, k: nat, j: nat)
    requires WritableInode(l, f) && k <= |f.numbers| && j < 4
    ensures 4 * k + j < |InodeBytes(f)| == BLOCK_SIZE
    ensures InodeBytes(f)[4 * k + j] == LittleEndian(([f.length] + f.numbers)[k])[j]
  {
    InodeIsBlock(l, f);
    NumbersAt([f.length] + f.numbers, k, j);
  }

  lemma InodeBlockIs(l: Layout, i: nat)
    requires Writable(l) && i < |l.inodes|
    ensures WritableInode(l, l.inodes[i]) && 1 + i < |Blocks(l)| && Blocks(l)[1 + i] == InodeBytes(l.inodes[i])
  {
  }

  lemma DataBlockIs(l: Layout, d: nat)
    requires d < |l.data|
    ensures 1 + |l.inodes| + d < |Blocks(l)| && Blocks(l)[1 + |l.inodes| + d] == l.data[d]
  {
  }

  /** What word `k` of an inode is for: the length, and then the block numbers. */
  function InodeField(f: Inode, k: nat): nat {
    if k == 0 then f.length else if k <= |f.numbers| then f.numbers[k - 1] else 0
  }

  lemma FieldFits(l: Layout, f: Inode, k: nat)
    requires Writable(l) && WritableInode(l, f)
    ensures InodeField(f, k) < WORD_SPAN
    ensures k <= |f.numbers| ==> ([f.length] + f.numbers)[k] == InodeField(f, k)
  {
  }

  lemma InodeWord(l: Layout, around: int -> Byte, i: nat, f: Inode, k: nat)
    requires Writable(l) && i < |l.inodes| && f == l.inodes[i] && k <= |f.numbers|
    ensures Written(l, around).Word(BLOCK_WORDS * (1 + i) + k) == InodeField(f, k)
  {
    hide Written, Blocks, InodeBytes, LittleEndian, Writable, WritableInode, InodeField;
    var img, w := Written(l, around), BLOCK_WORDS * (1 + i) + k;
    InodeBlockIs(l, i);
    FieldFits(l, f, k);
    var bytes := LittleEndian(InodeField(f, k));
    forall j | 0 <= j < 4 ensures img.mem(4 * w + j) == bytes[j] {
      WrittenAt(l, around, 1 + i, 4 * k + j);
      InodeByte(l, f, k, j);
      assert BLOCK_SIZE * (1 + i) + (4 * k + j) == 4 * w + j;
    }
    WordIs(img, w, InodeField(f, k));
  }

  /** The counts at the front of the boot block. */
  lemma HeaderWord(l: Layout, around: int -> Byte, k: nat)
    requires Writable(l) && k < 3
    ensures Written(l, around).Word(k) == [|l.entries|, |l.inodes|, |l.data|][k]
  {
    var counts, img := [|l.entries|, |l.inodes|, |l.data|], Written(l, around);
    BootIsBlock(l);
    forall j | 0 <= j < 4 ensures img.mem(4 * k + j) == LittleEndian(counts[k])[j] {
      WrittenAt(l, around, 0, 4 * k + j);
      NumbersAt(counts, k, j);
    }
    WordIs(img, k, counts[k]);
  }

  /** Byte `j` of directory entry `i`. */
  lemma EntryAt(l: Layout, around: int -> Byte, i: nat, j: nat)
    requires Writable(l) && i < |l.entries| && j < ENTRY_SIZE
    ensures Written(l, around).mem(64 + 64 * i + j) == EntryBytes(l.entries[i])[j]
  {
    BootIsBlock(l);
    WrittenAt(l, around, 0, 64 + 64 * i + j);
    ConcatAt(Entries(l.entries), ENTRY_SIZE, i, j);
  }

  lemma EntryFits(l: Layout, e: Dentry, i: nat)
    requires Writable(l) && i < |l.entries| && e == l.entries[i]
    ensures |e.filename| == NAME_LENGTH && e.filetype < WORD_SPAN && e.inode < WORD_SPAN
  {
  }

  /** The four bytes at `offset` of an entry are a number that the kernel reads there. */
  lemma EntryField(l: Layout, around: int -> Byte, i: nat, e: Dentry, offset: nat, v: nat)
    requires Writable(l) && i < |l.entries| && e == l.entries[i] && offset % 4 == 0 && offset <= 60 && v < WORD_SPAN
    requires |EntryBytes(e)| == ENTRY_SIZE && EntryBytes(e)[offset..offset + 4] == LittleEndian(v)
    ensures Written(l, around).Word(16 + 16 * i + offset / 4) == v
  {
    hide Written, LittleEndian, Writable, EntryBytes;
    var img, w := Written(l, around), 16 + 16 * i + offset / 4;
    forall j | 0 <= j < 4 ensures img.mem(4 * w + j) == LittleEndian(v)[j] {
      EntryAt(l, around, i, offset + j);
      assert EntryBytes(e)[offset..offset + 4][j] == EntryBytes(e)[offset + j];
      assert 64 + 64 * i + (offset + j) == 4 * w + j;
    }
    WordIs(img, w, v);
  }

  lemma EntryParts(e: Dentry)
    requires |e.filename| == NAME_LENGTH
    ensures var b := EntryBytes(e);
            && |b| == ENTRY_SIZE && b[..32] == e.filename
            && b[32..36] == LittleEndian(e.filetype) && b[36..40] == LittleEndian(e.inode)
  {
    hide LittleEndian;
  }

  lemma EntryName(l: Layout, around: int -> Byte, i: nat, e: Dentry)
    requires Writable(l) && i < |l.entries| && e == l.entries[i] && |e.filename| == NAME_LENGTH
    ensures DentryAt(Written(l, around), i).filename == e.filename
  {
    hide Written, Writable, EntryBytes;
    EntryParts(e);
    forall j | 0 <= j < NAME_LENGTH ensures DentryAt(Written(l, around), i).filename[j] == e.filename[j] {
      EntryAt(l, around, i, j);
      assert EntryBytes(e)[j] == EntryBytes(e)[..32][j];
    }
  }

  lemma EntryIsRead(l: Layout, around: int -> Byte, i: nat, e: Dentry)
    requires Writable(l) && i < |l.entries| && e == l.entries[i]
    ensures DentryAt(Written(l, around), i) == e
  {
    EntryFits(l, e, i);
    hide Written, Writable, EntryBytes, LittleEndian;
    EntryParts(e);
    EntryName(l, around, i, e);
    EntryField(l, around, i, e, 32, e.filetype);
    EntryField(l, around, i, e, 36, e.inode);
  }

  /** Parsing the boot block gives back the directory and the inode count that were written. */
  lemma ParsingGivesBackEntries(l: Layout, around: int -> Byte)
    requires Writable(l)
    ensures BootBlockOf(Written(l, around)) == BootBlock(|l.inodes|, l.entries)
  {
    var img := Written(l, around);
    HeaderWord(l, around, 0);
    HeaderWord(l, around, 1);
    forall i | 0 <= i < |l.entries| ensures DentryAt(img, i) == l.entries[i] {
      EntryIsRead(l, around, i, l.entries[i]);
    }
  }

  /** The data blocks of a file in order. */
  function Named(l: Layout, f: Inode): (r: seq<seq<Byte>>)
    requires WritableInode(l, f)
    ensures |r| == |f.numbers|
  {
    seq(|f.numbers|, k requires 0 <= k < |f.numbers| => l.data[f.numbers[k]])
  }

  /** The text of a file: its data blocks in order, cut to its length. */
  function TextOf(l: Layout, f: Inode): (r: seq<Byte>)
    requires WritableInode(l, f) && Even(l.data, BLOCK_SIZE)
    ensures |r| == f.length
  {
    ConcatLength(Named(l, f), BLOCK_SIZE);
    Concat(Named(l, f))[..f.length]
  }

  /** Byte `k` of a file, found through its block numbers. */
  function DataAt(l: Layout, f: Inode, k: nat): Byte
    requires WritableInode(l, f) && Even(l.data, BLOCK_SIZE) && k < f.length
  {
    l.data[f.numbers[k / BLOCK_SIZE]][k % BLOCK_SIZE]
  }

  lemma TextAt(l: Layout, f: Inode, k: nat)
    requires WritableInode(l, f) && Even(l.data, BLOCK_SIZE) && k < f.length
    ensures TextOf(l, f)[k] == DataAt(l, f, k)
  {
    hide Concat;
    ConcatAt(Named(l, f), BLOCK_SIZE, k / BLOCK_SIZE, k % BLOCK_SIZE);
  }

  lemma DataByte(l: Layout, around: int -> Byte, i: nat, f: Inode, k: nat)
    requires Writable(l) && i < |l.inodes| && f == l.inodes[i] && WritableInode(l, f) && k < f.length
    ensures Written(l, around).FileByte(i, k) == DataAt(l, f, k)
  {
    var img := Written(l, around);
    var b, j := k / BLOCK_SIZE, k % BLOCK_SIZE;
    var d := f.numbers[b];
    hide Written, Blocks, Writable;
    HeaderWord(l, around, 1);
    InodeWord(l, around, i, f, 1 + b);
    DataBlockIs(l, d);
    WrittenAt(l, around, 1 + |l.inodes| + d, j);
  }

  /** Every file reads as it was written, however its blocks are scattered. */
  lemma ContentIsText(l: Layout, around: int -> Byte, i: nat)
    requires Writable(l) && i < |l.inodes|
    ensures var img := Written(l, around);
            img.ValidInode(i) && img.Content(i) == TextOf(l, l.inodes[i])
  {
    var img := Written(l, around);
    assert WritableInode(l, l.inodes[i]);
    InodeWord(l, around, i, l.inodes[i], 0);
    assert img.FileLength(i) == l.inodes[i].length;
    forall k | 0 <= k < l.inodes[i].length ensures img.FileByte(i, k) == TextOf(l, l.inodes[i])[k] {
      DataByte(l, around, i, l.inodes[i], k);
      TextAt(l, l.inodes[i], k);
    }
  }

  /** `read_data` delivers the slice of the written text, for every offset up to its end. */
  method ReadWritten(l: Layout, around: int -> Byte, i: nat, start: nat, buf: array<Byte>, at: nat, length: nat)
    returns (lengthRead: nat)
    requires Writable(l) && i < |l.inodes| && start <= l.inodes[i].length
    requires length < 0x8000_0000 && at + length <= buf.Length
    modifies buf
    ensures var text := Slice(TextOf(l, l.inodes[i]), start, length);
            lengthRead == |text| && buf[..] == Overlay(old(buf[..]), at, text)
  {
    var img := Written(l, around);
    ContentIsText(l, around, i);
    ReadDataExact(img, i, start, length);
    lengthRead := ReadData(img, i, start, buf, at, length);
  }
}
