/** Scan codes: which of them do something, and which characters they stand for. */
module Keyboard {
  import opened Bytes
  import opened WrappedText

  const TABLE_SIZE := 0x3B
  const BACKSPACE_CODE := 0x0E
  const TAB_CODE := 0x0F
  const ENTER_CODE := 0x1C
  const F1_CODE := 0x3B
  const F11_CODE := 0x57
  const L_CODE := 0x26
  const A_CODE := 0x1E

  /** One of the four character tables, by keyboard row; the cells between the rows hold NUL. */
  datatype Layout = Layout(digits: string, top: string, home: string, backslash: char, bottom: string)

  const NORMAL := Layout("1234567890-=", "qwertyuiop[]", "asdfghjkl;'`", '\\', "zxcvbnm,./")
  const SHIFTED := Layout("!@#$%^&*()_+", "QWERTYUIOP{}", "ASDFGHJKL:\"~", '|', "ZXCVBNM<>?")
  const CAPS := Layout("1234567890-=", "QWERTYUIOP[]", "ASDFGHJKL;'`", '\\', "ZXCVBNM,./")
  const SHIFTED_CAPS := Layout("!@#$%^&*()_+", "qwertyuiop{}", "asdfghjkl:\"~", '|', "zxcvbnm<>?")

  function KeyLayout(shift: bool, caps: bool): Layout {
    if caps then (if shift then SHIFTED_CAPS else CAPS) else if shift then SHIFTED else NORMAL
  }

  function CharIn(row: string, k: int): char {
    if 0 <= k < |row| then row[k] else '\0'
  }

  /** The table entry of a scan code. */
  function TableChar(l: Layout, scan: nat): char {
    if scan < 0x0E then CharIn(l.digits, scan - 0x02)
    else if scan < 0x1C then CharIn(l.top, scan - 0x10)
    else if scan < 0x2A then CharIn(l.home, scan - 0x1E)
    else if scan == 0x2B then l.backslash
    else if scan < 0x36 then CharIn(l.bottom, scan - 0x2C)
    else if scan == 0x37 then '*'
    else if scan == 0x39 then ' '
    else '\0'
  }

  function KeyChar(shift: bool, caps: bool, scan: nat): Byte {
    (TableChar(KeyLayout(shift, caps), scan) as int % 256) as Byte
  }

  /** `special_key_check`: keys that type nothing. */
  predicate IsSpecial(scan: nat) {
    scan == 0x01 || scan == 0x2A || scan == 0x36 || scan == 0x1D || scan == 0x37 || scan == 0x38 || scan == 0x3A
    || 0x3B <= scan <= 0x44 || scan == 0x8E || scan == 0x0E || scan == 0x8F || scan == 0x0F
  }

  predicate PrintableRow(row: string) {
    forall k :: 0 <= k < |row| ==> ' ' <= row[k] <= '~'
  }

  predicate PrintableLayout(l: Layout) {
    && |l.digits| == 12 && |l.top| == 12 && |l.home| == 12 && |l.bottom| == 10
    && PrintableRow(l.digits) && PrintableRow(l.top) && PrintableRow(l.home) && PrintableRow(l.bottom)
    && ' ' <= l.backslash <= '~'
  }

  lemma LayoutsArePrintable(shift: bool, caps: bool)
    ensures PrintableLayout(KeyLayout(shift, caps))
  {
    hide PrintableLayout;
    NormalIsPrintable();
    ShiftedIsPrintable();
    CapsArePrintable();
    ShiftedCapsArePrintable();
  }

  lemma NormalIsPrintable()
    ensures PrintableLayout(NORMAL)
  {
  }

  lemma ShiftedIsPrintable()
    ensures PrintableLayout(SHIFTED)
  {
  }

  lemma CapsArePrintable()
    ensures PrintableLayout(CAPS)
  {
  }

  lemma ShiftedCapsArePrintable()
    ensures PrintableLayout(SHIFTED_CAPS)
  {
  }

  /** The keys that reach the tables and are typed all have a printable character there. */
  lemma TypedKeysArePrintable(shift: bool, caps: bool, scan: nat)
    requires 1 < scan < TABLE_SIZE && !IsSpecial(scan) && scan != ENTER_CODE
    ensures Printable([KeyChar(shift, caps, scan)]) && KeyChar(shift, caps, scan) >= SPACE
  {
    hide KeyLayout, PrintableRow;
    LayoutsArePrintable(shift, caps);
    var l := KeyLayout(shift, caps);
    InPrintableRow(l.digits, scan - 0x02);
    InPrintableRow(l.top, scan - 0x10);
    InPrintableRow(l.home, scan - 0x1E);
    InPrintableRow(l.bottom, scan - 0x2C);
  }

  lemma InPrintableRow(row: string, k: int)
    requires PrintableRow(row)
    ensures 0 <= k < |row| ==> ' ' <= CharIn(row, k) <= '~'
  {
  }
}
