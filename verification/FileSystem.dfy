/** The read-only file system image: inodes, scattered data blocks, and the boot block. */
module FileSystem {
  import opened Bytes

  const BLOCK_SIZE := 4096
  const BLOCK_WORDS := 1024
  const MAX_BLOCKS := 1023
  const NAME_LENGTH := 32
  const MAX_DENTRIES := 63

  /**
   * The mounted image, as bytes at offsets from the boot block pointer. It is a total function
   * because the kernel reads through raw pointers and no access is checked.
   */
  datatype Image = Image(mem: int -> Byte) {

    /** The little-endian 32-bit word at word offset `w`. */
    function Word(w: int): (r: nat)
      ensures r < WORD_SPAN
    {
      (mem(4 * w) as int) + 0x100 * (mem(4 * w + 1) as int)
      + 0x1_0000 * (mem(4 * w + 2) as int) + 0x100_0000 * (mem(4 * w + 3) as int)
    }

    function InodeCount(): nat { Word(1) }

    /** The byte length stored in the first word of an inode. */
    function FileLength(inode: nat): nat { Word(BLOCK_WORDS * (1 + inode)) }

    /** Where data block number `b` of an inode starts: anywhere in the image. */
    function BlockStart(inode: nat, b: nat): int {
      BLOCK_SIZE * (1 + InodeCount() + Word(BLOCK_WORDS * (1 + inode) + 1 + b))
    }

    /** Byte `k` of the file, wherever its block lies. */
    function FileByte(inode: nat, k: nat): Byte {
      mem(BlockStart(inode, k / BLOCK_SIZE) + k % BLOCK_SIZE)
    }

    /** The file as one flat byte sequence. */
    function Content(inode: nat): seq<Byte> {
      seq(FileLength(inode), k requires 0 <= k => FileByte(inode, k))
    }

    /** An inode has room for 1023 block numbers, so no file is longer than their blocks. */
    predicate ValidInode(inode: nat) {
      FileLength(inode) <= MAX_BLOCKS * BLOCK_SIZE
    }
  }

  /** What a read at `offset` of `length` bytes should deliver. */
  function Slice(content: seq<Byte>, offset: nat, length: nat): seq<Byte> {
    if offset >= |content| then [] else content[offset..Min(offset + length, |content|)]
  }

  /** The offset is past the end of the file but still inside its last 4096-byte block. */
  predicate PastEndInLastBlock(fileLength: nat, offset: nat) {
    fileLength < offset && offset / BLOCK_SIZE == fileLength / BLOCK_SIZE
  }

  /** What `read_data` delivers: past the end in the last block, raw memory without any bound. */
  function Delivered(img: Image, inode: nat, offset: nat, length: nat): (r: seq<Byte>)
    ensures |r| <= length
  {
    if PastEndInLastBlock(img.FileLength(inode), offset) then
      seq(length, k => img.mem(img.BlockStart(inode, offset / BLOCK_SIZE) + offset % BLOCK_SIZE + k))
    else
      Slice(img.Content(inode), offset, length)
  }

  /** `buf` with the bytes `data` placed at position `at`. */
  function Overlay(buf: seq<Byte>, at: nat, data: seq<Byte>): (r: seq<Byte>)
    requires at + |data| <= |buf|
    ensures |r| == |buf|
  {
    buf[..at] + data + buf[at + |data|..]
  }

  /** One byte more of the data. */
  lemma OverlayGrows(buf: seq<Byte>, at: nat, data: seq<Byte>, n: nat)
    requires 0 < n <= |data| && at + n <= |buf|
    ensures Overlay(buf, at, data[..n]) == Overlay(buf, at, data[..n - 1])[at + n - 1 := data[n - 1]]
  {
    var l, r := Overlay(buf, at, data[..n]), Overlay(buf, at, data[..n - 1])[at + n - 1 := data[n - 1]];
    forall i | 0 <= i < |buf| ensures l[i] == r[i] {
    }
  }

  /**
   * Within one block the delivered bytes are consecutive in memory: `count` bytes starting with
   * delivered byte number `before` lie at the position of the current offset in block `loop`.
   */
  lemma BlockRun(img: Image, inode: nat, start: nat, length: nat, before: nat, count: nat, loop: nat)
    requires before + count <= length
    requires (start + before) / BLOCK_SIZE == loop
    requires if PastEndInLastBlock(img.FileLength(inode), start) then before == 0
             else start + before + count <= Min(img.FileLength(inode), BLOCK_SIZE * (loop + 1))
    ensures var all := Delivered(img, inode, start, length);
            var ptr := img.BlockStart(inode, loop) + (start + before) % BLOCK_SIZE;
            before + count <= |all| &&
            forall j :: before <= j < before + count ==> all[j] == img.mem(ptr + (j - before))
  {
    var all := Delivered(img, inode, start, length);
    if !PastEndInLastBlock(img.FileLength(inode), start) {
      if start >= img.FileLength(inode) {
        assert count == 0;
      } else {
        forall j | before <= j < before + count
          ensures j < |all| &&
                  all[j] == img.mem(img.BlockStart(inode, loop) + (start + before) % BLOCK_SIZE + (j - before))
        {
          assert all[j] == img.Content(inode)[start + j];
          assert (start + j) / BLOCK_SIZE == loop;
        }
      }
    }
  }

  /** `count` consecutive bytes of memory. */
  function Run(img: Image, start: int, count: nat): (r: seq<Byte>) {
    seq(count, k => img.mem(start + k))
  }

  /**
   * The inner loop of `read_data`: `count` bytes of one block go to the buffer one by one, after
   * the `before` bytes of `all` that earlier blocks have put there.
   */
  method CopyRun(img: Image, start: int, buf: array<Byte>, at: nat, before: nat, count: nat,
                 ghost all: seq<Byte>, ghost was: seq<Byte>)
    requires before + count <= |all| && at + |all| <= buf.Length == |was|
    requires all[before..before + count] == Run(img, start, count)
    requires buf[..] == Overlay(was, at, all[..before])
    modifies buf
    ensures buf[..] == Overlay(was, at, all[..before + count])
  {
    var ptr, lengthRead, i := start, before, count;
    while i > 0
      invariant 0 <= i <= count && ptr == start + (count - i) && lengthRead == before + (count - i)
      invariant buf[..] == Overlay(was, at, all[..lengthRead])
    {
      assert all[lengthRead] == Run(img, start, count)[count - i];
      buf[at + lengthRead] := img.mem(ptr);
      ptr := ptr + 1;
      lengthRead := lengthRead + 1;
      i := i - 1;
      OverlayGrows(was, at, all, lengthRead);
    }
  }

  /** Where the outer loop of `read_data` stands when it looks at block `loop`. */
  ghost predicate AtBlock(fileLength: nat, start: nat, lengthRead: nat, loop: nat) {
    if PastEndInLastBlock(fileLength, start) then
      loop == start / BLOCK_SIZE && lengthRead == 0
    else if start > fileLength then
      loop > fileLength / BLOCK_SIZE && lengthRead == 0
    else
      && start + lengthRead <= fileLength
      && if loop <= fileLength / BLOCK_SIZE then (start + lengthRead) / BLOCK_SIZE == loop
         else start + lengthRead == fileLength
  }

  /**
   * Where `read_data` starts in block `loop` and how many bytes it takes. They are the next bytes to deliver, and
   * then either the request is filled or the next block follows.
   */
  method BlockTurn(img: Image, inode: nat, start: nat, length: nat, lengthRead: nat, loop: nat, ghost all: seq<Byte>)
    returns (ptr: int, count: nat)
    requires start < WORD_SPAN && length < 0x8000_0000 && img.ValidInode(inode)
    requires lengthRead <= length && loop <= img.FileLength(inode) / BLOCK_SIZE
    requires AtBlock(img.FileLength(inode), start, lengthRead, loop)
    requires all == Delivered(img, inode, start, length)
    ensures lengthRead + count <= |all| <= length
    ensures all[lengthRead..lengthRead + count] == Run(img, ptr, count)
    ensures lengthRead + count == length || AtBlock(img.FileLength(inode), start, lengthRead + count, loop + 1)
  {
    var fileLength, offset := img.FileLength(inode), start + lengthRead;
    var i := if fileLength > BLOCK_SIZE * (loop + 1) then BLOCK_SIZE * (loop + 1) - offset else fileLength - offset;
    // `length` and hence the comparison are unsigned, so a negative count compares as huge
    if Unsigned32(i) > length - lengthRead {
      i := length - lengthRead;
    }
    hide Delivered;
    ptr, count := img.BlockStart(inode, loop) + offset % BLOCK_SIZE, i;
    BlockRun(img, inode, start, length, lengthRead, count, loop);
  }

  /** Once every block is passed, everything has been delivered. */
  lemma AllDelivered(img: Image, inode: nat, start: nat, length: nat, lengthRead: nat, loop: nat)
    requires lengthRead <= |Delivered(img, inode, start, length)| && loop > img.FileLength(inode) / BLOCK_SIZE
    requires AtBlock(img.FileLength(inode), start, lengthRead, loop)
    ensures lengthRead == |Delivered(img, inode, start, length)|
  {
  }

  method ReadData(img: Image, inode: nat, start: nat, buf: array<Byte>, at: nat, length: nat)
    returns (lengthRead: nat)
    requires img.ValidInode(inode)
    requires start < WORD_SPAN && length < 0x8000_0000
    requires at + length <= buf.Length
    modifies buf
    ensures lengthRead == |Delivered(img, inode, start, length)| <= length
    ensures buf[..] == Overlay(old(buf[..]), at, Delivered(img, inode, start, length))
  {
    hide Delivered;
    lengthRead := 0;
    var loop := start / BLOCK_SIZE;
    var maxBlock := img.FileLength(inode) / BLOCK_SIZE + 1;
    ghost var all, was := Delivered(img, inode, start, length), buf[..];
    while loop < maxBlock
      invariant lengthRead <= |all| <= length
      invariant AtBlock(img.FileLength(inode), start, lengthRead, loop)
      invariant buf[..] == Overlay(was, at, all[..lengthRead])
    {
      var ptr, count := BlockTurn(img, inode, start, length, lengthRead, loop, all);
      CopyRun(img, ptr, buf, at, lengthRead, count, all, was);
      lengthRead := lengthRead + count;
      if lengthRead == length {
        assert all[..lengthRead] == all;
        return;
      }
      loop := loop + 1;
    }
    AllDelivered(img, inode, start, length, lengthRead, loop);
    assert all[..lengthRead] == all;
  }

  /** A read delivers the right slice of the file unless it starts past the end in the last block. */
  lemma ReadDataExact(img: Image, inode: nat, offset: nat, length: nat)
    ensures Delivered(img, inode, offset, length) == Slice(img.Content(inode), offset, length) <==>
            !(PastEndInLastBlock(img.FileLength(inode), offset) && length > 0)
  {
    if PastEndInLastBlock(img.FileLength(inode), offset) && length > 0 {
      assert |Delivered(img, inode, offset, length)| == length;
    }
  }

  datatype Dentry = Dentry(filename: seq<Byte>, filetype: nat, inode: nat) {
    /** The name as a C string: full 32-byte names have no terminator. */
    function Name(): seq<Byte> { CString(filename, NAME_LENGTH) }
  }

  datatype BootBlock = BootBlock(inodeCount: nat, direntries: seq<Dentry>)

  /** Directory entry `i` as it lies in the image: 64 bytes each, after a 64-byte header. */
  function DentryAt(img: Image, i: nat): Dentry {
    Dentry(seq(NAME_LENGTH, k => img.mem(64 + 64 * i + k)), img.Word(16 + 16 * i + 8), img.Word(16 + 16 * i + 9))
  }

  function BootBlockOf(img: Image): BootBlock {
    BootBlock(img.InodeCount(), seq(img.Word(0), i requires 0 <= i => DentryAt(img, i)))
  }

  /** The part of `dir_open` that runs once: every directory entry is copied out of the image. */
  method ParseBootBlock(img: Image) returns (boot: BootBlock)
    ensures boot == BootBlockOf(img)
  {
    var dirCount := img.Word(0);
    var inodeCount := img.Word(1);
    var entries: seq<Dentry> := [];
    var tempPtr := 16;
    for i := 0 to dirCount
      invariant tempPtr == 16 + 16 * i
      invariant entries == seq(i, j requires 0 <= j => DentryAt(img, j))
    {
      var chars: seq<Byte> := [];
      for floop := 0 to NAME_LENGTH
        invariant chars == seq(floop, k => img.mem(4 * tempPtr + k))
      {
        chars := chars + [img.mem(4 * tempPtr + floop)];
      }
      assert chars == DentryAt(img, i).filename;
      entries := entries + [Dentry(chars, img.Word(tempPtr + 8), img.Word(tempPtr + 9))];
      tempPtr := tempPtr + 16;
    }
    boot := BootBlock(inodeCount, entries);
  }

  /** A byte as a C `int8_t`. */
  function Signed8(b: Byte): int {
    if b < 128 then b as int else b as int - 256
  }

  /** `strncmp`: zero exactly when the two C strings agree in their first `n` bytes. */
  method StrNCmp(s1: seq<Byte>, s2: seq<Byte>, n: nat) returns (r: int)
    ensures r == 0 <==> CString(s1, n) == CString(s2, n)
    ensures r != 0 ==> exists i: nat :: (i < n && CharAt(s1, i) != CharAt(s2, i) &&
      r == Signed8(CharAt(s1, i)) - Signed8(CharAt(s2, i)) && CString(s1, i) == CString(s2, i))
  {
    for i := 0 to n
      invariant i <= |s1| && i <= |s2| && s1[..i] == s2[..i] && NUL !in s1[..i]
    {
      CStringUnique(s1, i, i);
      CStringUnique(s2, i, i);
      if CharAt(s1, i) != CharAt(s2, i) || CharAt(s1, i) == NUL {
        StringsSplitAt(s1, s2, n, i);
        return Signed8(CharAt(s1, i)) - Signed8(CharAt(s2, i));
      }
    }
    CStringUnique(s1, n, n);
    CStringUnique(s2, n, n);
    return 0;
  }

  /** Two strings equal up to `i` where one stops or they differ: equal there means equal. */
  lemma StringsSplitAt(s1: seq<Byte>, s2: seq<Byte>, n: nat, i: nat)
    requires i < n && i <= |s1| && i <= |s2| && s1[..i] == s2[..i] && NUL !in s1[..i]
    requires CharAt(s1, i) != CharAt(s2, i) || CharAt(s1, i) == NUL
    ensures CharAt(s1, i) == CharAt(s2, i) <==> CString(s1, n) == CString(s2, n)
  {
    CStringReaches(s1, n, i);
    CStringReaches(s2, n, i);
    if CharAt(s1, i) == CharAt(s2, i) {
      CStringUnique(s1, n, i);
      CStringUnique(s2, n, i);
    }
  }

  function Padded(name: seq<Byte>): (r: seq<Byte>)
    requires |name| <= NAME_LENGTH
    ensures |r| == NAME_LENGTH
  {
    name + seq(NAME_LENGTH - |name|, _ => NUL)
  }

  /** `strncpy` with a bound of 32: the C string, then NULs up to the bound. */
  method StrNCpy(src: seq<Byte>) returns (dest: seq<Byte>)
    ensures dest == Padded(CString(src, NAME_LENGTH))
  {
    dest := [];
    while CharAt(src, |dest|) != NUL && |dest| < NAME_LENGTH
      invariant |dest| <= |src| && |dest| <= NAME_LENGTH && dest == src[..|dest|] && NUL !in dest
      decreases NAME_LENGTH - |dest|
    {
      dest := dest + [src[|dest|]];
    }
    CStringUnique(src, NAME_LENGTH, |dest|);
    ghost var name := dest;
    while |dest| < NAME_LENGTH
      invariant |name| <= |dest| <= NAME_LENGTH && dest == name + seq(|dest| - |name|, _ => NUL)
    {
      dest := dest + [NUL];
    }
  }

  /** The loop of `dir_read`: a padded name goes to the buffer up to its first NUL. */
  method CopyName(filename: seq<Byte>, buf: array<Byte>, at: nat) returns (r: nat)
    requires |filename| == NAME_LENGTH && at + NAME_LENGTH <= buf.Length
    modifies buf
    ensures r == |CString(filename, NAME_LENGTH)|
    ensures buf[..] == Overlay(old(buf[..]), at, CString(filename, NAME_LENGTH))
  {
    r := 0;
    ghost var was := buf[..];
    while r < NAME_LENGTH && filename[r] != NUL
      invariant 0 <= r <= NAME_LENGTH && NUL !in filename[..r]
      invariant buf[..] == Overlay(was, at, filename[..r])
    {
      buf[at + r] := filename[r];
      r := r + 1;
      OverlayGrows(was, at, filename, r);
    }
    CStringUnique(filename, NAME_LENGTH, r);
  }

  lemma PaddedKeepsName(name: seq<Byte>)
    requires |name| <= NAME_LENGTH && NUL !in name
    ensures CString(Padded(name), NAME_LENGTH) == name
  {
    assert Padded(name)[..|name|] == name;
    CStringUnique(Padded(name), NAME_LENGTH, |name|);
  }

  /** The least index of an entry whose name is the C string `fname` cut to 32 bytes, or -1. */
  function Lookup(entries: seq<Dentry>, fname: seq<Byte>): (r: int)
    ensures -1 <= r < |entries|
    ensures 0 <= r ==> entries[r].Name() == CString(fname, NAME_LENGTH)
    ensures forall i :: 0 <= i < (if r < 0 then |entries| else r) ==>
      entries[i].Name() != CString(fname, NAME_LENGTH)
  {
    if entries == [] then -1
    else if entries[0].Name() == CString(fname, NAME_LENGTH) then 0
    else
      var r := Lookup(entries[1..], fname);
      assert forall i :: 1 <= i < |entries| ==> entries[i] == entries[1..][i - 1];
      if r < 0 then -1 else r + 1
  }

  /** `read_dentry_by_name`, up to the index it hands to `read_dentry_by_index`. */
  method ReadDentryByName(boot: BootBlock, fname: seq<Byte>) returns (r: int)
    ensures r == Lookup(boot.direntries, fname)
  {
    for i := 0 to |boot.direntries|
      invariant forall j :: 0 <= j < i ==> boot.direntries[j].Name() != CString(fname, NAME_LENGTH)
    {
      var cmp := StrNCmp(boot.direntries[i].filename, fname, NAME_LENGTH);
      if cmp == 0 {
        return i;
      }
    }
    return -1;
  }

  /** When names are distinct, looking up the name of an entry finds that very entry. */
  lemma LookupFindsOwnIndex(entries: seq<Dentry>, i: nat)
    requires i < |entries|
    ensures Lookup(entries, entries[i].Name()) == i <==>
            forall j :: 0 <= j < i ==> entries[j].Name() != entries[i].Name()
  {
    var name := entries[i].Name();
    CStringUnique(name, NAME_LENGTH, |name|);
    assert name[..|name|] == name;
  }
}
