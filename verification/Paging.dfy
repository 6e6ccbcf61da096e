/** The page directory and tables of `memory.c`, read the way 32-bit paging reads them. */
module Paging {
  type Word = bv32

  const P: Word := 0x1
  const RW: Word := 0x2
  const US: Word := 0x4
  const PCD: Word := 0x10
  const PS: Word := 0x80
  const G: Word := 0x100
  const KERNELPG: Word := 0x40_0000
  const USERPG: Word := 0x80_0000
  const VIDMEM: Word := 0xB_8000
  const TERM0: Word := 0xB_9000
  const TERM1: Word := 0xB_A000
  const TERM2: Word := 0xB_B000
  const ENTRIES := 1024

  /** Contents and physical places of the directory and its two tables. */
  datatype Tables = Tables(directory: seq<Word>, table1: seq<Word>, table2: seq<Word>, at1: Word, at2: Word)

  /** What a translation yields; `Elsewhere` is a walk through memory that is none of the tables. */
  datatype Access = Fault | Elsewhere | Physical(address: Word, user: bool, writable: bool)

  /** The tables exist, aligned to 4096 and apart (`x86_desc.S`). */
  predicate Placed(m: Tables) {
    && |m.directory| == |m.table1| == |m.table2| == ENTRIES
    && Aligned(m.at1) && Aligned(m.at2) && m.at1 != m.at2
  }

  predicate Aligned(at: Word) {
    at & 0xFFF == 0
  }

  predicate Has(entry: Word, bit: Word) {
    entry & bit != 0
  }

  /** An entry of a table; there are none past its end. */
  function Entry(table: seq<Word>, i: nat): Word {
    if i < |table| then table[i] else 0
  }

  /** Translation of a 4 KB page: section 4.3 of the Intel SDM Volume 3A, figure 4-2. */
  function SmallPage(pde: Word, pte: Word, va: Word): Access {
    if !Has(pte, P) then Fault
    else Physical((pte & 0xFFFF_F000) | (va & 0xFFF), Has(pde, US) && Has(pte, US), Has(pde, RW) && Has(pte, RW))
  }

  /** Translation of a 4 MB page: figure 4-3. */
  function LargePage(pde: Word, va: Word): Access {
    Physical((pde & 0xFFC0_0000) | (va & 0x3F_FFFF), Has(pde, US), Has(pde, RW))
  }

  /** Translation with CR4.PSE set: section 4.3 of the Intel SDM Volume 3A. */
  function Walk(m: Tables, va: Word): Access {
    var pde := Entry(m.directory, (va >> 22) as nat);
    var i := ((va >> 12) & 0x3FF) as nat;
    if !Has(pde, P) then Fault
    else if Has(pde, PS) then LargePage(pde, va)
    else if pde & 0xFFFF_F000 == m.at1 then SmallPage(pde, Entry(m.table1, i), va)
    else if pde & 0xFFFF_F000 == m.at2 then SmallPage(pde, Entry(m.table2, i), va)
    else Elsewhere
  }

  /** The 4 MB frame of process `n`, as an address; it wraps at 4 GB. */
  function FrameOf(n: Word): Word {
    (n + 2) << 22
  }

  /** The directory entry of the user page. */
  function UserEntry(n: Word): Word {
    FrameOf(n) | 0x97
  }

  /** A directory entry that points to a table. */
  function Link(at: Word, flags: Word): Word {
    at | flags
  }

  /** The two statements of `update_user_addr`. */
  function Reload(entry: Word, n: Word): Word {
    (entry & 0xF_FFFF) | (USERPG + KERNELPG * n)
  }

  /** The memory map that process `n` is meant to run under. */
  function MemoryMap(n: Word, va: Word): Access {
    if VIDMEM <= va < TERM2 + 0x1000 || KERNELPG <= va < USERPG then Physical(va, false, true)
    else if 0x800_0000 <= va < 0x840_0000 then Physical(FrameOf(n) + (va - 0x800_0000), true, true)
    else if 0x840_0000 + VIDMEM <= va < 0x840_0000 + TERM2 + 0x1000 then Physical(va - 0x840_0000, true, true)
    else Fault
  }

  /** Directory and tables with process `n` in the user page. */
  predicate Serves(m: Tables, n: Word) {
    && Placed(m)
    && m.directory[0] == Link(m.at1, 0x3) && m.directory[1] == 0x40_0193
    && m.directory[32] == UserEntry(n) && m.directory[33] == Link(m.at2, 0x7)
    && (forall i :: 1 < i < ENTRIES && i != 32 && i != 33 ==> m.directory[i] == RW)
    && VideoPages(m.table1, 0x3) && VideoPages(m.table2, 0x7)
  }

  /** Only the four text pages are present, each at its own address. */
  predicate VideoPages(table: seq<Word>, flags: Word) {
    && |table| == ENTRIES
    && table[0xB8] == VIDMEM | flags && table[0xB9] == TERM0 | flags
    && table[0xBA] == TERM1 | flags && table[0xBB] == TERM2 | flags
    && forall i :: 0 <= i < ENTRIES && !(0xB8 <= i <= 0xBB) ==> table[i] == RW
  }

  /** Which entries an address selects, as far as the tables distinguish them. */
  lemma Indices(va: Word)
    ensures (va >> 22) as nat < ENTRIES && ((va >> 12) & 0x3FF) as nat < ENTRIES
    ensures (va >> 22) as nat == 0 <==> va >> 22 == 0
    ensures (va >> 22) as nat == 1 <==> va >> 22 == 1
    ensures (va >> 22) as nat == 32 <==> va >> 22 == 32
    ensures (va >> 22) as nat == 33 <==> va >> 22 == 33
  {
  }

  lemma VideoWalk(table: seq<Word>, flags: Word, pde: Word, va: Word)
    requires VideoPages(table, flags) && (flags == 0x3 || flags == 0x7) && pde & 0x7 == flags
    ensures var page := (va >> 12) & 0x3FF;
            page as nat < ENTRIES && SmallPage(pde, table[page as nat], va)
            == if 0xB8 <= page <= 0xBB then Physical(va & 0x3F_FFFF, flags == 0x7, true) else Fault
  {
    var page := (va >> 12) & 0x3FF;
    assert page as nat == 0xB8 <==> page == 0xB8;
    assert page as nat == 0xB9 <==> page == 0xB9;
    assert page as nat == 0xBA <==> page == 0xBA;
    assert page as nat == 0xBB <==> page == 0xBB;
  }

  lemma LargeWalk(n: Word, va: Word)
    ensures va >> 22 == 1 ==> LargePage(0x40_0193, va) == MemoryMap(n, va)
    ensures va >> 22 == 32 ==> LargePage(UserEntry(n), va) == MemoryMap(n, va)
    ensures Has(UserEntry(n), P) && Has(UserEntry(n), PS)
  {
  }

  lemma TableEntries(at: Word)
    requires Aligned(at)
    ensures Link(at, 0x3) & 0xFFFF_F000 == at && Link(at, 0x7) & 0xFFFF_F000 == at
    ensures Has(Link(at, 0x3), P) && !Has(Link(at, 0x3), PS) && Has(Link(at, 0x7), P) && !Has(Link(at, 0x7), PS)
    ensures Link(at, 0x3) & 0x7 == 0x3 && Link(at, 0x7) & 0x7 == 0x7
  {
  }

  lemma VideoMap(n: Word, va: Word)
    ensures var video := 0xB8 <= (va >> 12) & 0x3FF <= 0xBB;
            && (va >> 22 == 0 ==> MemoryMap(n, va) == if video then Physical(va & 0x3F_FFFF, false, true) else Fault)
            && (va >> 22 == 33 ==> MemoryMap(n, va) == if video then Physical(va & 0x3F_FFFF, true, true) else Fault)
            && (va >> 22 != 0 && va >> 22 != 1 && va >> 22 != 32 && va >> 22 != 33 ==> MemoryMap(n, va) == Fault)
  {
  }

  /** Over all 2^32 addresses the tables translate as the memory map says, faults included. */
  lemma WalkIsMemoryMap(m: Tables, n: Word, va: Word)
    requires Serves(m, n)
    ensures Walk(m, va) == MemoryMap(n, va)
  {
    hide VideoPages, MemoryMap, LargePage, SmallPage, UserEntry, Aligned, Link;
    Indices(va);
    LargeWalk(n, va);
    VideoMap(n, va);
    TableEntries(m.at1);
    TableEntries(m.at2);
    VideoWalk(m.table1, 0x3, m.directory[0], va);
    VideoWalk(m.table2, 0x7, m.directory[33], va);
  }

  /** `update_user_addr` on the value of the tables. */
  function Update(m: Tables, n: Word): Tables {
    if |m.directory| <= 32 then m
    else m.(directory := m.directory[32 := Reload(m.directory[32], n)])
  }

  lemma UpdateServes(m: Tables, before: Word, n: Word)
    requires Serves(m, before)
    ensures Serves(Update(m, n), n)
  {
    hide VideoPages, UserEntry, Reload, Aligned, Link;
    Reloaded(before, n);
  }

  /** Keeping 20 bits keeps every flag, and there is nothing above them but the frame. */
  lemma Reloaded(before: Word, n: Word)
    ensures Reload(UserEntry(before), n) == UserEntry(n)
  {
  }

  /** The tables after a run of process switches. */
  function Switches(m: Tables, ns: seq<Word>): Tables {
    if ns == [] then m else Update(Switches(m, ns[..|ns| - 1]), ns[|ns| - 1])
  }

  /** After any switches the map is the last process's, whatever ran before: nothing is left behind. */
  lemma {:induction false} SwitchesKeepMemoryMap(m: Tables, first: Word, ns: seq<Word>, va: Word)
    requires Serves(m, first)
    ensures var n := if ns == [] then first else ns[|ns| - 1];
            Serves(Switches(m, ns), n) && Walk(Switches(m, ns), va) == MemoryMap(n, va)
  {
    hide Walk, MemoryMap, Serves, VideoPages;
    var n := if ns == [] then first else ns[|ns| - 1];
    if ns != [] {
      var earlier := ns[..|ns| - 1];
      SwitchesKeepMemoryMap(m, first, earlier, va);
      var before := if earlier == [] then first else earlier[|earlier| - 1];
      UpdateServes(Switches(m, earlier), before, n);
    }
    WalkIsMemoryMap(Switches(m, ns), n, va);
  }

  /** Process `n` can touch the physical byte `pa` from user mode. */
  ghost predicate UserReaches(n: Word, pa: Word) {
    exists va :: var a := MemoryMap(n, va); a.Physical? && a.user && a.address == pa
  }

  /** From user mode: the process's own frame and the four text pages, all of them and no more. */
  lemma UserReachesExactly(n: Word, pa: Word)
    ensures UserReaches(n, pa) <==> pa & 0xFFC0_0000 == FrameOf(n) || VIDMEM <= pa < TERM2 + 0x1000
  {
    if pa & 0xFFC0_0000 == FrameOf(n) {
      var va := 0x800_0000 + (pa & 0x3F_FFFF);
      assert MemoryMap(n, va) == Physical(pa, true, true);
    }
    if VIDMEM <= pa < TERM2 + 0x1000 {
      var va := 0x840_0000 + pa;
      assert MemoryMap(n, va) == Physical(pa, true, true);
    }
  }

  /** Two processes share user memory beyond the text pages exactly when their numbers agree modulo 1024. */
  lemma FramesAreDisjointExactly(n: Word, k: Word)
    ensures (exists pa :: UserReaches(n, pa) && UserReaches(k, pa) && !(VIDMEM <= pa < TERM2 + 0x1000))
       <==> n & 0x3FF == k & 0x3FF
  {
    hide UserReaches, FrameOf;
    forall pa ensures UserReaches(n, pa) <==> pa & 0xFFC0_0000 == FrameOf(n) || VIDMEM <= pa < TERM2 + 0x1000 {
      UserReachesExactly(n, pa);
    }
    forall pa ensures UserReaches(k, pa) <==> pa & 0xFFC0_0000 == FrameOf(k) || VIDMEM <= pa < TERM2 + 0x1000 {
      UserReachesExactly(k, pa);
    }
    FramesDiffer(n, k);
    var pa := FrameOf(n);
    assert FrameOf(n) == FrameOf(k) ==> UserReaches(n, pa) && UserReaches(k, pa);
  }

  lemma FramesDiffer(n: Word, k: Word)
    ensures FrameOf(n) == FrameOf(k) <==> n & 0x3FF == k & 0x3FF
    ensures FrameOf(n) & 0xFFC0_0000 == FrameOf(n) && !(VIDMEM <= FrameOf(n) < TERM2 + 0x1000)
  {
  }

  /** The kernel's page is out of user reach exactly for process numbers other than 1023 modulo 1024. */
  lemma KernelIsSafeExactly(n: Word)
    ensures (forall pa :: KERNELPG <= pa < USERPG ==> !UserReaches(n, pa)) <==> n & 0x3FF != 0x3FF
  {
    forall pa ensures UserReaches(n, pa) <==> pa & 0xFFC0_0000 == FrameOf(n) || VIDMEM <= pa < TERM2 + 0x1000 {
      UserReachesExactly(n, pa);
    }
    assert FrameOf(n) == KERNELPG <==> n & 0x3FF == 0x3FF;
    assert n & 0x3FF == 0x3FF ==> UserReaches(n, KERNELPG);
  }

  /** What `sys_vidmap` does: return -1, store nothing, or store a pointer. */
  datatype Mapped = Refused | Untouched | Pointer(value: Word)

  /** `sys_vidmap`. */
  function VidMap(screenStart: Word, onScreen: Word): Mapped {
    if screenStart == 0 || screenStart < 0x800_0000 || screenStart > 0x840_0000 then Refused
    else if onScreen == 0 then Pointer(0x840_0000 + TERM0)
    else if onScreen == 1 then Pointer(0x840_0000 + TERM1)
    else if onScreen == 2 then Pointer(0x840_0000 + TERM2)
    else Untouched
  }

  /** In the user page, or just past it. */
  predicate Accepted(pointer: Word) {
    pointer & 0xFFC0_0000 == 0x800_0000 || pointer == 0x840_0000
  }

  /** A byte of the backing page of a terminal. */
  function Backing(terminal: Word, offset: Word): Word {
    TERM0 + terminal * 0x1000 + offset
  }

  /** The pointer leads user code to the backing page of the terminal on screen, byte for byte. */
  lemma VidMapShowsTerminal(m: Tables, n: Word, screenStart: Word, onScreen: Word, offset: Word)
    requires Serves(m, n) && onScreen < 3 && offset < 0x1000
    ensures VidMap(screenStart, onScreen).Refused? <==> !Accepted(screenStart)
    ensures VidMap(screenStart, onScreen).Pointer? <==> Accepted(screenStart)
    ensures Accepted(screenStart) ==>
      Walk(m, VidMap(screenStart, onScreen).value + offset) == Physical(Backing(onScreen, offset), true, true)
  {
    BackingPage(n, screenStart, onScreen, offset);
    hide *;
    if Accepted(screenStart) {
      WalkIsMemoryMap(m, n, VidMap(screenStart, onScreen).value + offset);
    }
  }

  lemma BackingPage(n: Word, screenStart: Word, onScreen: Word, offset: Word)
    requires onScreen < 3 && offset < 0x1000
    ensures VidMap(screenStart, onScreen).Refused? <==> !Accepted(screenStart)
    ensures VidMap(screenStart, onScreen).Pointer? <==> Accepted(screenStart)
    ensures Accepted(screenStart) ==>
      MemoryMap(n, VidMap(screenStart, onScreen).value + offset) == Physical(Backing(onScreen, offset), true, true)
  {
    assert onScreen == 0 || onScreen == 1 || onScreen == 2;
  }

  /** The store through an accepted pointer is mapped exactly up to 0x83FFFFC; the range test lets four more pass. */
  lemma VidMapStoreFaultsExactly(m: Tables, n: Word, screenStart: Word, onScreen: Word)
    requires Serves(m, n) && onScreen < 3 && VidMap(screenStart, onScreen).Pointer?
    ensures (forall va :: screenStart <= va <= screenStart + 3 ==> Walk(m, va).Physical?)
       <==> screenStart <= 0x83F_FFFC
  {
    hide Walk, Serves;
    forall va ensures Walk(m, va) == MemoryMap(n, va) {
      WalkIsMemoryMap(m, n, va);
    }
    assert Walk(m, screenStart + 3) == MemoryMap(n, screenStart + 3);
  }

  /** The bits of an address above `ENTRY4KB`. */
  function PageBits(at: Word): Word {
    (at >> 12) << 12
  }

  lemma TableEntry(at: Word)
    requires Aligned(at)
    ensures 0 | P | RW | PageBits(at) | RW == Link(at, 0x3)
    ensures 0 | P | RW | US | PageBits(at) == Link(at, 0x7)
  {
  }

  lemma PageEntries()
    ensures 0 | P | RW | PCD | PS | G | KERNELPG | RW == 0x40_0193
    ensures 0 | P | RW | US | PCD | PS | USERPG | RW == UserEntry(0)
    ensures 0 | RW == RW
  {
  }

  class Mmu {
    const directory: array<Word>
    const table1: array<Word>
    const table2: array<Word>
    const at1: Word
    const at2: Word

    ghost function View(): Tables
      reads directory, table1, table2
    {
      Tables(directory[..], table1[..], table2[..], at1, at2)
    }

    /** Three distinct arrays of `x86_desc.S`. */
    ghost predicate Valid()
      reads directory, table1, table2
    {
      Placed(View()) && directory != table1 && directory != table2 && table1 != table2
    }

    constructor (directory: array<Word>, table1: array<Word>, table2: array<Word>, at1: Word, at2: Word)
      ensures this.directory == directory && this.table1 == table1 && this.table2 == table2
      ensures this.at1 == at1 && this.at2 == at2
    {
      this.directory, this.table1, this.table2, this.at1, this.at2 := directory, table1, table2, at1, at2;
    }

    /** The body of the directory loop. */
    method FillDirectoryEntry(i: nat)
      requires Valid() && i < ENTRIES
      modifies directory
      ensures forall j :: 0 <= j < ENTRIES && j != i ==> directory[j] == old(directory[j])
      ensures directory[i] == if i == 0 then Link(at1, 0x3) else if i == 1 then 0x40_0193
                              else if i == 32 then UserEntry(0) else if i == 33 then Link(at2, 0x7) else RW
    {
      hide VideoPages, Link, UserEntry, Aligned, PageBits;
      TableEntry(at1);
      TableEntry(at2);
      PageEntries();
      directory[i] := 0;
      if i == 0 {
        directory[i] := directory[i] | P;
        directory[i] := directory[i] | RW;
        directory[i] := directory[i] | PageBits(at1);
      }
      if i == 1 {
        directory[i] := directory[i] | P;
        directory[i] := directory[i] | RW;
        directory[i] := directory[i] | PCD;
        directory[i] := directory[i] | PS;
        directory[i] := directory[i] | G;
        directory[i] := directory[i] | KERNELPG;
      }
      if i == 32 {
        directory[i] := directory[i] | P;
        directory[i] := directory[i] | RW;
        directory[i] := directory[i] | US;
        directory[i] := directory[i] | PCD;
        directory[i] := directory[i] | PS;
        directory[i] := directory[i] | USERPG;
      }
      if i == 33 {
        directory[i] := directory[i] | P;
        directory[i] := directory[i] | RW;
        directory[i] := directory[i] | US;
        directory[i] := directory[i] | PageBits(at2);
      } else {
        directory[i] := directory[i] | RW;
      }
    }

    method FillDirectory()
      requires Valid()
      modifies directory
      ensures directory[0] == Link(at1, 0x3) && directory[1] == 0x40_0193
      ensures directory[32] == UserEntry(0) && directory[33] == Link(at2, 0x7)
      ensures forall i :: 1 < i < ENTRIES && i != 32 && i != 33 ==> directory[i] == RW
    {
      hide VideoPages, Link, UserEntry;
      for i := 0 to ENTRIES
        invariant i > 0 ==> directory[0] == Link(at1, 0x3)
        invariant i > 1 ==> directory[1] == 0x40_0193
        invariant i > 32 ==> directory[32] == UserEntry(0)
        invariant i > 33 ==> directory[33] == Link(at2, 0x7)
        invariant forall j :: 1 < j < i && j != 32 && j != 33 ==> directory[j] == RW
      {
        FillDirectoryEntry(i);
      }
    }

    /** The loops over the two tables differ only in the user bit. */
    method FillTable(table: array<Word>, user: Word)
      requires table.Length == ENTRIES && (user == 0 || user == US)
      modifies table
      ensures VideoPages(table[..], P | RW | user)
    {
      for i := 0 to ENTRIES
        invariant i > 0xB8 ==> table[0xB8] == VIDMEM | (P | RW | user)
        invariant i > 0xB9 ==> table[0xB9] == TERM0 | (P | RW | user)
        invariant i > 0xBA ==> table[0xBA] == TERM1 | (P | RW | user)
        invariant i > 0xBB ==> table[0xBB] == TERM2 | (P | RW | user)
        invariant forall j :: 0 <= j < i && !(0xB8 <= j <= 0xBB) ==> table[j] == RW
      {
        table[i] := 0;
        if i == (VIDMEM >> 12) as nat {
          table[i] := table[i] | P;
          table[i] := table[i] | RW;
          table[i] := table[i] | user;
          table[i] := table[i] | VIDMEM;
        }
        if i == (TERM0 >> 12) as nat {
          table[i] := table[i] | P;
          table[i] := table[i] | RW;
          table[i] := table[i] | user;
          table[i] := table[i] | TERM0;
        }
        if i == (TERM1 >> 12) as nat {
          table[i] := table[i] | P;
          table[i] := table[i] | RW;
          table[i] := table[i] | user;
          table[i] := table[i] | TERM1;
        }
        if i == (TERM2 >> 12) as nat {
          table[i] := table[i] | P;
          table[i] := table[i] | RW;
          table[i] := table[i] | user;
          table[i] := table[i] | TERM2;
        } else {
          table[i] := table[i] | RW;
        }
      }
    }

    /** The table building of `paging_init`: process 0 is served. */
    method PagingInit()
      requires Valid()
      modifies directory, table1, table2
      ensures Valid() && Serves(View(), 0)
    {
      FillDirectory();
      FillTable(table1, 0);
      FillTable(table2, US);
    }

    /** `update_user_addr`. */
    method UpdateUserAddr(processNum: Word)
      requires Valid()
      modifies directory
      ensures Valid() && View() == Update(old(View()), processNum)
    {
      directory[32] := directory[32] & 0xF_FFFF;
      directory[32] := directory[32] | (USERPG + KERNELPG * processNum);
    }
  }
}
