/** The keyboard as the user sees it: the four character tables written out, and what each key is for. */
module KeyMaps {
  import opened Bytes
  import opened Keyboard
  import opened Terminals

  /** The tables of `keyboard.c`, sixteen scan codes to a row. */
  function Row(shift: bool, caps: bool, r: nat): string {
    if r == 0 then (if shift then "\0\0!@#$%^&*()_+\0\0" else "\0\01234567890-=\0\0")
    else if r == 1 then
      if shift then (if caps then "qwertyuiop{}\0\0as" else "QWERTYUIOP{}\0\0AS")
      else if caps then "QWERTYUIOP[]\0\0AS" else "qwertyuiop[]\0\0as"
    else if r == 2 then
      if shift then (if caps then "dfghjkl:\"~\0|zxcv" else "DFGHJKL:\"~\0|ZXCV")
      else if caps then "DFGHJKL;'`\0\\ZXCV" else "dfghjkl;'`\0\\zxcv"
    else if r == 3 then
      if shift then (if caps then "bnm<>?\0*\0 \0" else "BNM<>?\0*\0 \0")
      else if caps then "BNM,./\0*\0 \0" else "bnm,./\0*\0 \0"
    else ""
  }

  /** The whole table. */
  function Table(shift: bool, caps: bool): string {
    Row(shift, caps, 0) + Row(shift, caps, 1) + Row(shift, caps, 2) + Row(shift, caps, 3)
  }

  lemma FirstRow(shift: bool, caps: bool, j: nat)
    requires j < 16
    ensures |Row(shift, caps, 0)| == 16 && TableChar(KeyLayout(shift, caps), j) == Row(shift, caps, 0)[j]
  {
  }

  lemma SecondRow(shift: bool, caps: bool, j: nat)
    requires j < 16
    ensures |Row(shift, caps, 1)| == 16 && TableChar(KeyLayout(shift, caps), 16 + j) == Row(shift, caps, 1)[j]
  {
  }

  lemma ThirdRow(shift: bool, caps: bool, j: nat)
    requires j < 16
    ensures |Row(shift, caps, 2)| == 16 && TableChar(KeyLayout(shift, caps), 32 + j) == Row(shift, caps, 2)[j]
  {
  }

  lemma FourthRow(shift: bool, caps: bool, j: nat)
    requires j < 11
    ensures |Row(shift, caps, 3)| == 11 && TableChar(KeyLayout(shift, caps), 48 + j) == Row(shift, caps, 3)[j]
  {
  }

  lemma RowLengths(shift: bool, caps: bool)
    ensures |Row(shift, caps, 0)| == |Row(shift, caps, 1)| == |Row(shift, caps, 2)| == 16 && |Row(shift, caps, 3)| == 11
  {
    FirstRow(shift, caps, 0);
    SecondRow(shift, caps, 0);
    ThirdRow(shift, caps, 0);
    FourthRow(shift, caps, 0);
  }

  /** Cell by cell, the layouts are the tables. */
  lemma LayoutIsTable(shift: bool, caps: bool, scan: nat)
    requires scan < TABLE_SIZE
    ensures |Table(shift, caps)| == TABLE_SIZE
    ensures TableChar(KeyLayout(shift, caps), scan) == Table(shift, caps)[scan]
  {
    hide Row, TableChar, KeyLayout;
    RowLengths(shift, caps);
    if scan < 16 {
      FirstRow(shift, caps, scan);
    } else if scan < 32 {
      SecondRow(shift, caps, scan - 16);
    } else if scan < 48 {
      ThirdRow(shift, caps, scan - 32);
    } else {
      FourthRow(shift, caps, scan - 48);
    }
  }

  /** The characters of the tables fit a byte. */
  lemma CharFits(l: Layout, scan: nat)
    requires PrintableLayout(l)
    ensures TableChar(l, scan) <= '~'
  {
    hide PrintableRow;
    InPrintableRow(l.digits, scan - 0x02);
    InPrintableRow(l.top, scan - 0x10);
    InPrintableRow(l.home, scan - 0x1E);
    InPrintableRow(l.bottom, scan - 0x2C);
  }

  /** What a key types is the cell of its scan code in the table for shift and caps lock. */
  lemma KeyCharIsTable(shift: bool, caps: bool, scan: nat)
    requires scan < TABLE_SIZE
    ensures |Table(shift, caps)| == TABLE_SIZE && KeyChar(shift, caps, scan) as int == Table(shift, caps)[scan] as int
  {
    hide Row, Table, TableChar, KeyLayout, PrintableLayout;
    LayoutsArePrintable(shift, caps);
    CharFits(KeyLayout(shift, caps), scan);
    LayoutIsTable(shift, caps, scan);
  }

  /** The keys of the letters. */
  predicate IsLetterKey(scan: nat) {
    0x10 <= scan <= 0x19 || 0x1E <= scan <= 0x26 || 0x2C <= scan <= 0x32
  }

  predicate IsSmall(c: Byte) { 0x61 <= c <= 0x7A }

  predicate IsCapital(c: Byte) { 0x41 <= c <= 0x5A }

  /** The same letter in the four layouts. */
  predicate LetterCell(shift: bool, caps: bool, scan: nat) {
    var small := TableChar(KeyLayout(false, false), scan);
    'a' <= small <= 'z' &&
    TableChar(KeyLayout(shift, caps), scan) as int == small as int - if shift != caps then 0x20 else 0
  }

  lemma TopLetters(shift: bool, caps: bool, scan: nat)
    requires 0x10 <= scan <= 0x19
    ensures LetterCell(shift, caps, scan)
  {
  }

  lemma HomeLetters(shift: bool, caps: bool, scan: nat)
    requires 0x1E <= scan <= 0x26
    ensures LetterCell(shift, caps, scan)
  {
  }

  lemma BottomLetters(shift: bool, caps: bool, scan: nat)
    requires 0x2C <= scan <= 0x32
    ensures LetterCell(shift, caps, scan)
  {
  }

  /** The keys of the letters type letters: a capital if and only if shift differs from caps lock. */
  lemma LetterKeys(shift: bool, caps: bool, scan: nat)
    requires IsLetterKey(scan)
    ensures var small := KeyChar(false, false, scan);
            IsSmall(small) && KeyChar(shift, caps, scan) == if shift != caps then small - 0x20 else small
  {
    hide TableChar, KeyLayout;
    if scan <= 0x19 {
      TopLetters(shift, caps, scan);
    } else if scan <= 0x26 {
      HomeLetters(shift, caps, scan);
    } else {
      BottomLetters(shift, caps, scan);
    }
  }

  /** The other keys type no letters, and what they type is the same with caps lock and without. */
  lemma OtherKeys(shift: bool, caps: bool, scan: nat)
    requires scan < TABLE_SIZE && !IsLetterKey(scan)
    ensures !IsSmall(KeyChar(shift, caps, scan)) && !IsCapital(KeyChar(shift, caps, scan))
    ensures KeyChar(shift, caps, scan) == KeyChar(shift, false, scan)
  {
  }

  /** A letter is a capital exactly when shift differs from caps lock, and caps lock changes exactly the letters. */
  lemma CapitalsExactly(shift: bool, caps: bool, scan: nat)
    requires scan < TABLE_SIZE
    ensures var c := KeyChar(shift, caps, scan);
            && (IsCapital(c) <==> IsLetterKey(scan) && shift != caps)
            && (IsSmall(c) <==> IsLetterKey(scan) && shift == caps)
            && (c != KeyChar(shift, !caps, scan) <==> IsSmall(c) || IsCapital(c))
  {
    hide KeyChar;
    if IsLetterKey(scan) {
      LetterKeys(shift, caps, scan);
      LetterKeys(shift, !caps, scan);
    } else {
      OtherKeys(shift, caps, scan);
      OtherKeys(shift, !caps, scan);
    }
  }

  /** The keys of the printable characters in their order, sixteen to a row. */
  function Keys(r: nat): seq<nat> {
    if r == 0 then
      [0x39, 0x02, 0x28, 0x04, 0x05, 0x06, 0x08, 0x28, 0x0A, 0x0B, 0x09, 0x0D, 0x33, 0x0C, 0x34, 0x35]
    else if r == 1 then
      [0x0B, 0x02, 0x03, 0x04, 0x05, 0x06, 0x07, 0x08, 0x09, 0x0A, 0x27, 0x27, 0x33, 0x0D, 0x34, 0x35]
    else if r == 2 then
      [0x03, 0x1E, 0x30, 0x2E, 0x20, 0x12, 0x21, 0x22, 0x23, 0x17, 0x24, 0x25, 0x26, 0x32, 0x31, 0x18]
    else if r == 3 then
      [0x19, 0x10, 0x13, 0x1F, 0x14, 0x16, 0x2F, 0x11, 0x2D, 0x15, 0x2C, 0x1A, 0x2B, 0x1B, 0x07, 0x0C]
    else if r == 4 then
      [0x29, 0x1E, 0x30, 0x2E, 0x20, 0x12, 0x21, 0x22, 0x23, 0x17, 0x24, 0x25, 0x26, 0x32, 0x31, 0x18]
    else
      [0x19, 0x10, 0x13, 0x1F, 0x14, 0x16, 0x2F, 0x11, 0x2D, 0x15, 0x2C, 0x1A, 0x2B, 0x1B, 0x29]
  }

  /** The characters that stand above another one on their key. */
  predicate NeedsShift(c: Byte) {
    IsCapital(c) || 0x21 <= c <= 0x26 || 0x28 <= c <= 0x2B || c == 0x3A || c == 0x3C || 0x3E <= c <= 0x40
    || 0x5E <= c <= 0x5F || 0x7B <= c
  }

  predicate KeyTypes(scan: nat, c: Byte) {
    1 < scan < TABLE_SIZE && !IsSpecial(scan) && scan != ENTER_CODE && KeyChar(NeedsShift(c), false, scan) == c
  }

  lemma FirstKeys(j: nat)
    requires j < 16
    ensures |Keys(0)| == 16 && KeyTypes(Keys(0)[j], (0x20 + j) as Byte)
  {
  }

  lemma SecondKeys(j: nat)
    requires j < 16
    ensures |Keys(1)| == 16 && KeyTypes(Keys(1)[j], (0x30 + j) as Byte)
  {
  }

  lemma ThirdKeys(j: nat)
    requires j < 16
    ensures |Keys(2)| == 16 && KeyTypes(Keys(2)[j], (0x40 + j) as Byte)
  {
  }

  lemma FourthKeys(j: nat)
    requires j < 16
    ensures |Keys(3)| == 16 && KeyTypes(Keys(3)[j], (0x50 + j) as Byte)
  {
  }

  lemma FifthKeys(j: nat)
    requires j < 16
    ensures |Keys(4)| == 16 && KeyTypes(Keys(4)[j], (0x60 + j) as Byte)
  {
  }

  lemma LastKeys(j: nat)
    requires j < 15
    ensures |Keys(5)| == 15 && KeyTypes(Keys(5)[j], (0x70 + j) as Byte)
  {
  }

  function KeyOf(c: Byte): nat
    requires 0x20 <= c <= 0x7E
  {
    var k := c as nat - 0x20;
    if k % 16 < |Keys(k / 16)| then Keys(k / 16)[k % 16] else 0
  }

  lemma KeyOfTypes(c: Byte)
    requires 0x20 <= c <= 0x7E
    ensures KeyTypes(KeyOf(c), c)
  {
    hide Keys, KeyTypes;
    var k := c as nat - 0x20;
    if k < 16 { FirstKeys(k); }
    else if k < 32 { SecondKeys(k - 16); }
    else if k < 48 { ThirdKeys(k - 32); }
    else if k < 64 { FourthKeys(k - 48); }
    else if k < 80 { FifthKeys(k - 64); }
    else { LastKeys(k - 80); }
  }

  /** Every printable character has a key, with caps lock and without, and on a line with room it is typed. */
  lemma EveryCharacterHasKey(c: Byte, f: Flags, count: int)
    requires 0x20 <= c <= 0x7E && count < MAX_TYPED
    ensures exists shift, scan :: ActionOf(f.(shift := shift), count, scan) == Type(c)
  {
    hide KeyChar, KeyOf;
    KeyOfTypes(c);
    var scan := KeyOf(c);
    var shift := if IsLetterKey(scan) then NeedsShift(c) != f.caps else NeedsShift(c);
    if IsLetterKey(scan) {
      LetterKeys(NeedsShift(c), false, scan);
      LetterKeys(shift, f.caps, scan);
    } else {
      OtherKeys(NeedsShift(c), f.caps, scan);
    }
    assert ActionOf(f.(shift := shift), count, scan) == Type(c);
  }

  /** A key types exactly if the line has room and its cell in the table is not empty, the keypad star apart. */
  lemma TypesExactly(f: Flags, count: int, scan: nat, c: Byte)
    ensures |Table(f.shift, f.caps)| == TABLE_SIZE
    ensures ActionOf(f, count, scan) == Type(c) <==>
            count < 127 && scan < TABLE_SIZE && scan != 0x37 &&
            c as int == Table(f.shift, f.caps)[scan] as int && c != NUL
  {
    hide Table;
    KeyCharIsTable(f.shift, f.caps, Min(scan, TABLE_SIZE - 1));
    hide KeyChar;
    if scan < TABLE_SIZE && scan != 0x37 {
      EmptyCells(f.shift, f.caps, scan);
    }
  }

  /** The keys that type nothing have empty cells, but for the keypad star, and no others have. */
  lemma EmptyCells(shift: bool, caps: bool, scan: nat)
    requires scan < TABLE_SIZE && scan != 0x37
    ensures KeyChar(shift, caps, scan) == NUL <==> scan <= 1 || IsSpecial(scan) || scan == ENTER_CODE
  {
    if scan <= 1 || IsSpecial(scan) || scan == ENTER_CODE {
      EmptyCell(KeyLayout(shift, caps), scan);
    } else {
      TypedKeysArePrintable(shift, caps, scan);
    }
  }

  lemma EmptyCell(l: Layout, scan: nat)
    requires scan < TABLE_SIZE && scan != 0x37 && (scan <= 1 || IsSpecial(scan) || scan == ENTER_CODE)
    requires |l.digits| == |l.top| == |l.home| == 12
    ensures TableChar(l, scan) == '\0'
  {
  }

  /** The other actions, by their scan codes. */
  lemma ActsExactly(f: Flags, count: int, scan: nat)
    ensures var a := ActionOf(f, count, scan);
            && (a == Backspace <==> scan == 14) && (a == Tab <==> scan == 15) && (a == Enter <==> scan == 28)
            && (forall t: nat :: a == Switch(t) <==> f.alt && t < 3 && scan == 59 + t)
  {
    hide KeyChar;
  }

  /** The flags after a run of scan codes. */
  function FlagsRun(f: Flags, scans: seq<nat>): Flags {
    if scans == [] then f else FlagsAfter(FlagsRun(f, scans[..|scans| - 1]), scans[|scans| - 1])
  }

  predicate NoneOf(scans: seq<nat>, i: nat, codes: set<nat>) {
    forall j :: i <= j < |scans| ==> scans[j] !in codes
  }

  /** A key is down: it was pressed and not released since, or it was down before and never released. */
  ghost predicate Down(before: bool, scans: seq<nat>, presses: set<nat>, releases: set<nat>) {
    || (before && NoneOf(scans, 0, releases))
    || exists i :: 0 <= i < |scans| && scans[i] in presses && NoneOf(scans, i, releases)
  }

  lemma DownStep(before: bool, scans: seq<nat>, presses: set<nat>, releases: set<nat>)
    requires scans != [] && presses !! releases
    ensures var last, earlier := scans[|scans| - 1], scans[..|scans| - 1];
            Down(before, scans, presses, releases) <==>
            if last in presses then true
            else if last in releases then false else Down(before, earlier, presses, releases)
  {
    var last, earlier := scans[|scans| - 1], scans[..|scans| - 1];
    forall i | 0 <= i <= |earlier|
      ensures NoneOf(scans, i, releases) <==> NoneOf(earlier, i, releases) && last !in releases
    {
      assert forall j :: i <= j < |earlier| ==> earlier[j] == scans[j];
    }
    if last in presses {
      assert NoneOf(scans, |earlier|, releases);
    } else if last !in releases && Down(before, earlier, presses, releases) &&
              !(before && NoneOf(earlier, 0, releases)) {
      var i :| 0 <= i < |earlier| && earlier[i] in presses && NoneOf(earlier, i, releases);
      assert scans[i] in presses && NoneOf(scans, i, releases);
    }
  }

  /**
   * The flags in closed form: shift, control and alt are those whose keys are down, and caps lock changes with
   * every press.
   */
  lemma {:induction false} FlagsExactly(f: Flags, scans: seq<nat>)
    ensures var r := FlagsRun(f, scans);
            && (r.shift <==> Down(f.shift, scans, {0x2A, 0x36}, {0xAA, 0xB6}))
            && (r.ctrl <==> Down(f.ctrl, scans, {0x1D}, {0x9D}))
            && (r.alt <==> Down(f.alt, scans, {0x38}, {0xB8}))
            && (r.caps <==> (multiset(scans)[0x3A] % 2 == 0 <==> f.caps))
  {
    hide Down;
    if scans == [] {
      NothingDown(f.shift, {0x2A, 0x36}, {0xAA, 0xB6});
      NothingDown(f.ctrl, {0x1D}, {0x9D});
      NothingDown(f.alt, {0x38}, {0xB8});
    } else {
      FlagsExactly(f, scans[..|scans| - 1]);
      DownStep(f.shift, scans, {0x2A, 0x36}, {0xAA, 0xB6});
      DownStep(f.ctrl, scans, {0x1D}, {0x9D});
      DownStep(f.alt, scans, {0x38}, {0xB8});
      assert scans == scans[..|scans| - 1] + [scans[|scans| - 1]];
    }
  }

  lemma NothingDown(before: bool, presses: set<nat>, releases: set<nat>)
    ensures Down(before, [], presses, releases) <==> before
  {
  }
}
