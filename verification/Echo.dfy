/**
 * What the screens show after any run of keys, output, reads and ticks: for each terminal the log of what its
 * keys echo and its program writes, kept on a sheet of its own.
 */
module Echo {
  import opened Bytes
  import opened Console
  import opened WrappedText
  import opened Keyboard
  import opened Terminals
  import opened TerminalRuns
  import opened Consoles

  /** The unfinished line of a terminal, all it has ever shown, and whether enter waits to be noticed. */
  datatype Sheet = Sheet(line: seq<Byte>, log: Log, entered: bool)

  datatype Book = Book(sheets: seq<Sheet>, onScreen: nat, flags: Flags, count: int)

  predicate ValidBook(b: Book) {
    && |b.sheets| == TERMINALS && b.onScreen < TERMINALS
    && ValidLog(b.sheets[0].log) && ValidLog(b.sheets[1].log) && ValidLog(b.sheets[2].log)
  }

  /** What a key writes and erases. */
  function KeySheet(s: Sheet, a: Action): (r: Sheet)
    requires ValidLog(s.log)
  {
    match a
    case Type(c) => s.(line := s.line + [c], log := LogPut(s.log, c))
    case Tab => if |s.line| < MAX_TYPED then s.(line := s.line + [SPACE], log := LogPut(s.log, SPACE)) else s
    case Backspace => if s.line == [] then s else s.(line := s.line[..|s.line| - 1], log := LogErase(s.log))
    case Enter => Sheet([], LogPut(s.log, NEWLINE), true)
    case _ => s
  }

  /** How many characters the keyboard driver takes to be on the line. */
  function KeyCount(s: Sheet, count: int, a: Action): int {
    match a
    case Type(c) => count + 1
    case Tab => if |s.line| < MAX_TYPED then count + 1 else count
    case Backspace => if s.line == [] then count else count - 1
    case Enter => 0
    case _ => count
  }

  /** Output is logged, a read takes the line away, and a tick leaves everything as it is. */
  function CallSheet(s: Sheet, ev: Event): Sheet
    requires ValidLog(s.log)
  {
    match ev
    case Write(buf) => s.(log := LogPuts(s.log, buf))
    case ReadLine(n) => if n == 0 then s else s.(line := [], entered := false)
    case _ => s
  }

  function BookStep(b: Book, i: Input): Book
    requires ValidBook(b)
  {
    var s := b.sheets[b.onScreen];
    match i
    case Call(ev) => b.(sheets := b.sheets[b.onScreen := CallSheet(s, ev)])
    case Press(scan) =>
      var f := FlagsAfter(b.flags, scan);
      var a := ActionOf(f, b.count, scan);
      var next := if a.Switch? then a.target else b.onScreen;
      Book(b.sheets[b.onScreen := KeySheet(s, a)], next, f, KeyCount(s, b.count, a))
  }

  /** The terminal shows the end of its log, and its buffer begins with its line. */
  ghost predicate ShowsSheet(c: Terminal, s: Sheet) {
    && Shows(View(c.page, c.x, c.y), s.log)
    && |c.kb| == KB_SIZE && c.idx == |s.line| <= MAX_TYPED && c.kb[..c.idx] == s.line && Printable(s.line)
    && c.kb[0] != NEWLINE && c.entered == s.entered
  }

  ghost predicate ShowsBook(m: Machine, b: Book) {
    && Valid(m) && ValidBook(b) && m.onScreen == b.onScreen && m.flags == b.flags && m.count == b.count
    && forall t :: 0 <= t < TERMINALS ==> ShowsSheet(TerminalOf(m, t), b.sheets[t])
  }

  /** Enter starts a new row, whatever is in the buffer. */
  lemma EnterEchoes(m: Machine, log: Log)
    requires Valid(m) && Shows(m.Live(), log)
    ensures Shows(EnterStep(m).Live(), LogPut(log, NEWLINE))
    ensures EnterStep(m).kb == m.kb && EnterStep(m).idx == EnterStep(m).count == 0
  {
    hide PutcStep, Shows;
    PutcShowsLog(m.Live(), log, NEWLINE);
  }

  /** A tab that has room shows one space. */
  lemma TabEchoes(m: Machine, log: Log)
    requires Valid(m) && Shows(m.Live(), log)
    ensures Shows(TabStep(m).Live(), if m.idx < MAX_TYPED then LogPut(log, SPACE) else log)
  {
    hide PutcStep, Shows;
    PutcShowsLog(m.Live(), log, SPACE);
  }

  lemma TypeEchoes(m: Machine, c: Byte, log: Log)
    requires Valid(m) && InBounds(m, Type(c)) && Shows(m.Live(), log)
    ensures Shows(TypeStep(m, c).Live(), LogPut(log, c))
  {
    hide PutcStep, Shows;
    PutcShowsLog(m.Live(), log, c);
  }

  /** A backspace erases exactly when there is a character on the line and the first one is no newline or NUL. */
  lemma BackspaceEchoes(m: Machine, log: Log)
    requires Valid(m) && Shows(m.Live(), log)
    ensures Shows(BackspaceStep(m).Live(),
                  if m.idx > 0 && m.kb[0] != NEWLINE && m.kb[0] != NUL then LogErase(log) else log)
  {
    hide EraseStep, Shows;
    EraseShowsLog(m.Live(), log);
  }

  /** The buffer after a key that edits. */
  lemma KeyLine(m: Machine, a: Action, s: Sheet)
    requires Valid(m) && InBounds(m, a) && !a.Switch? && (a.Type? ==> Printable([a.c]))
    requires ShowsSheet(TerminalOf(m, m.onScreen), s)
    ensures var t, line := ActionStep(m, a), KeySheet(s, a).line;
            t.idx == |line| <= MAX_TYPED && |t.kb| == KB_SIZE && t.kb[..t.idx] == line && Printable(line)
    ensures ActionStep(m, a).kb[0] != NEWLINE
    ensures ActionStep(m, a).count == KeyCount(s, m.count, a)
  {
    hide PutcStep, EraseStep, LogPut, LogErase;
    KeyKeepsValid(m, a);
    var t := ActionStep(m, a);
    assert t.kb[..t.idx] == KeySheet(s, a).line;
    if a.Type? {
      assert Printable([a.c]) && [a.c][0] == a.c;
    }
  }

  /** On the screen every key echoes what its sheet says. */
  lemma KeyEchoes(m: Machine, a: Action, s: Sheet)
    requires Valid(m) && InBounds(m, a) && !a.Switch? && (a.Type? ==> Printable([a.c]))
    requires ShowsSheet(TerminalOf(m, m.onScreen), s)
    ensures Valid(ActionStep(m, a)) && ActionStep(m, a).onScreen == m.onScreen
    ensures ShowsSheet(TerminalOf(ActionStep(m, a), m.onScreen), KeySheet(s, a))
  {
    hide PutcStep, EraseStep, LogPut, LogErase, Shows;
    KeyKeepsValid(m, a);
    KeyLine(m, a, s);
    match a
    case Type(c) => TypeEchoes(m, c, s.log);
    case Tab => TabEchoes(m, s.log);
    case Enter => EnterEchoes(m, s.log);
    case Backspace =>
      assert s.line != [] ==> m.kb[0] == m.kb[..m.idx][0] == s.line[0];
      BackspaceEchoes(m, s.log);
    case _ =>
  }

  lemma WriteEchoes(m: Machine, buf: seq<Byte>, s: Sheet)
    requires Valid(m) && ShowsSheet(TerminalOf(m, m.onScreen), s)
    ensures Valid(WriteStep(m, buf)) && WriteStep(m, buf).onScreen == m.onScreen
    ensures ShowsSheet(TerminalOf(WriteStep(m, buf), m.onScreen), s.(log := LogPuts(s.log, buf)))
  {
    hide Shows, PutsStep;
    WriteIsPuts(m, buf);
    PutsShowsLog(m.Live(), s.log, buf);
  }

  /** ... and so does everything that is no key. */
  lemma CallEchoes(m: Machine, ev: Event, s: Sheet)
    requires Valid(m) && !ev.Key? && !ev.Flag? && ShowsSheet(TerminalOf(m, m.onScreen), s)
    ensures Valid(Step(m, ev)) && ShowsSheet(TerminalOf(Step(m, ev), m.onScreen), CallSheet(s, ev))
  {
    hide Shows, WriteStep;
    StepKeepsValid(m, ev);
    if ev.Write? {
      WriteEchoes(m, ev.buf, s);
    }
  }

  lemma CallShowsBook(m: Machine, ev: Event, b: Book)
    requires ShowsBook(m, b) && !ev.Key? && !ev.Flag?
    ensures ShowsBook(Step(m, ev), BookStep(b, Call(ev)))
  {
    hide ShowsSheet, CallSheet;
    StepKeepsValid(m, ev);
    CallEchoes(m, ev, b.sheets[m.onScreen]);
    CallKeepsRest(m, ev);
    SheetIsValid(TerminalOf(Step(m, ev), m.onScreen), CallSheet(b.sheets[m.onScreen], ev));
    forall t | 0 <= t < TERMINALS && t != m.onScreen ensures TerminalOf(Step(m, ev), t) == TerminalOf(m, t) {
      OthersUntouched(m, ev, t);
    }
  }

  lemma CallKeepsRest(m: Machine, ev: Event)
    requires Valid(m) && !ev.Key? && !ev.Flag?
    ensures Step(m, ev).flags == m.flags && Step(m, ev).count == m.count
  {
    hide PutsStep;
    if ev.Write? {
      WriteIsPuts(m, ev.buf);
    }
  }

  lemma SheetIsValid(c: Terminal, s: Sheet)
    requires ShowsSheet(c, s)
    ensures ValidLog(s.log)
  {
  }

  lemma KeyKeepsRest(m: Machine, a: Action, s: Sheet)
    requires Valid(m) && InBounds(m, a) && (a.Type? ==> Printable([a.c]))
    requires ShowsSheet(TerminalOf(m, m.onScreen), s)
    ensures ActionStep(m, a).flags == m.flags && ActionStep(m, a).count == KeyCount(s, m.count, a)
  {
    hide PutcStep, EraseStep, Shows;
    if !a.Switch? {
      KeyLine(m, a, s);
    }
  }

  lemma KeyShowsBook(m: Machine, a: Action, b: Book)
    requires ShowsBook(m, b) && InBounds(m, a) && (a.Type? ==> Printable([a.c]))
    requires a.Switch? ==> a.target < TERMINALS
    ensures ShowsBook(ActionStep(m, a),
                      Book(b.sheets[b.onScreen := KeySheet(b.sheets[b.onScreen], a)],
                           if a.Switch? then a.target else b.onScreen, b.flags,
                           KeyCount(b.sheets[b.onScreen], b.count, a)))
  {
    hide ShowsSheet, KeySheet, ActionStep;
    var s := b.sheets[m.onScreen];
    KeyKeepsValid(m, a);
    KeyKeepsRest(m, a, s);
    if a.Switch? {
      SwitchShowsSheets(m, a.target, b);
    } else {
      KeyEchoes(m, a, s);
      SheetIsValid(TerminalOf(ActionStep(m, a), m.onScreen), KeySheet(s, a));
      forall t | 0 <= t < TERMINALS && t != m.onScreen ensures TerminalOf(ActionStep(m, a), t) == TerminalOf(m, t) {
        OthersUntouched(m, Key(a), t);
      }
    }
  }

  lemma SwitchShowsSheets(m: Machine, target: nat, b: Book)
    requires ShowsBook(m, b) && target < TERMINALS
    ensures Valid(SwitchStep(m, target)) && ActionStep(m, Switch(target)) == SwitchStep(m, target)
    ensures KeySheet(b.sheets[m.onScreen], Switch(target)) == b.sheets[m.onScreen]
    ensures forall t :: 0 <= t < TERMINALS ==> ShowsSheet(TerminalOf(SwitchStep(m, target), t), b.sheets[t])
  {
    hide ShowsSheet;
    SwitchKeepsTerminals(m, target, 0);
    SwitchKeepsTerminals(m, target, 1);
    SwitchKeepsTerminals(m, target, 2);
  }

  /** The keys that reach the tables type printable characters only. */
  lemma HandlerTypesPrintable(f: Flags, count: int, scan: nat)
    requires Modelled(f, scan)
    ensures ActionOf(f, count, scan).Type? ==> Printable([ActionOf(f, count, scan).c])
    ensures ActionOf(f, count, scan).Switch? ==> ActionOf(f, count, scan).target < TERMINALS
  {
    hide KeyChar;
    if ActionOf(f, count, scan).Type? {
      TypedKeysArePrintable(f.shift, f.caps, scan);
    }
  }

  /** One input, on the machine and in the book. */
  lemma InputShowsBook(m: Machine, i: Input, b: Book)
    requires ShowsBook(m, b) && Takes(m, i)
    ensures ShowsBook(InputStep(m, i), BookStep(b, i))
  {
    hide ActionStep, Step, ActionOf, FlagsAfter, KeySheet, CallSheet, ShowsSheet;
    match i
    case Call(ev) => CallShowsBook(m, ev, b);
    case Press(scan) =>
      var f := FlagsAfter(m.flags, scan);
      HandlerTypesPrintable(f, m.count, scan);
      KeyShowsBook(m.(flags := f), ActionOf(f, m.count, scan), b.(flags := f));
  }

  lemma KeySheetKeepsValid(s: Sheet, a: Action)
    requires ValidLog(s.log)
    ensures ValidLog(KeySheet(s, a).log)
  {
    hide LogPut;
    match a
    case Type(c) => LogPutKeepsValid(s.log, c);
    case Tab => LogPutKeepsValid(s.log, SPACE);
    case Enter => LogPutKeepsValid(s.log, NEWLINE);
    case _ =>
  }

  lemma BookStepKeepsValid(b: Book, i: Input)
    requires ValidBook(b)
    ensures ValidBook(BookStep(b, i))
  {
    hide KeySheet, LogPuts, FlagsAfter;
    if i.Press? {
      KeySheetKeepsValid(b.sheets[b.onScreen], ActionOf(FlagsAfter(b.flags, i.scan), b.count, i.scan));
    }
  }

  /** The book after the inputs, which needs no machine. */
  function BookRun(b: Book, ins: seq<Input>): (r: Book)
    requires ValidBook(b)
    ensures ValidBook(r)
  {
    if ins == [] then b
    else
      BookStepKeepsValid(BookRun(b, ins[..|ins| - 1]), ins[|ins| - 1]);
      BookStep(BookRun(b, ins[..|ins| - 1]), ins[|ins| - 1])
  }

  /**
   * After every run of scan codes, output, reads and ticks that stays inside the keyboard buffer, each of the
   * three terminals shows the log of what its own keys echoed and erased and its program wrote.
   */
  lemma {:induction false} RunShowsBook(m: Machine, ins: seq<Input>, b: Book)
    requires ShowsBook(m, b) && TakesAll(m, ins)
    ensures ShowsBook(InputRun(m, ins), BookRun(b, ins))
  {
    hide InputStep, BookStep, ShowsSheet, Takes;
    if ins != [] {
      RunShowsBook(m, ins[..|ins| - 1], b);
      InputShowsBook(InputRun(m, ins[..|ins| - 1]), ins[|ins| - 1], BookRun(b, ins[..|ins| - 1]));
    }
  }

  /** Three terminals with cleared screens and empty lines show an empty book. */
  lemma ClearedShowsBook(m: Machine)
    requires Valid(m)
    requires forall t :: 0 <= t < TERMINALS ==>
      var c := TerminalOf(m, t);
      Cleared(View(c.page, c.x, c.y)) && c.idx == 0 && c.kb == seq(KB_SIZE, _ => NUL) && !c.entered
    ensures var s := Sheet([], ClearedLog(), false); ShowsBook(m, Book([s, s, s], m.onScreen, m.flags, m.count))
  {
    hide Cleared, Shows;
    LogOfValid([], []);
    var s := Sheet([], ClearedLog(), false);
    forall t | 0 <= t < TERMINALS ensures ShowsSheet(TerminalOf(m, t), s) {
      var c := TerminalOf(m, t);
      ClearedShows(View(c.page, c.x, c.y));
    }
  }

  /** Output of a terminal in the background goes to its back page; the screen stays as it is. */
  lemma {:induction false} BackgroundWrite(m: Machine, buf: seq<Byte>)
    requires Shaped(m) && m.onScreen != m.curr && !m.saved[m.curr].direct
    ensures var v := PutsStep(View(m.saved[m.curr].page, m.x, m.y), buf);
            WriteStep(m, buf) == m.(saved := m.saved[m.curr := m.saved[m.curr].(page := v.page)], x := v.x, y := v.y)
  {
    hide PutcStep;
    if buf != [] {
      BackgroundWrite(m, buf[..|buf| - 1]);
    }
  }

  /**
   * A tick saves the cursor, and after it output goes to the screen exactly if the terminal that runs is the
   * one on it.
   */
  lemma TickChoosesPage(m: Machine, buf: seq<Byte>)
    requires Shaped(m)
    ensures var t := TickStep(m);
            var v := PutsStep(if m.curr == m.onScreen then m.Live() else View(m.saved[m.curr].page, m.x, m.y), buf);
            && Shaped(t) && t.Live() == m.Live() && t.saved[m.curr].x == m.x && t.saved[m.curr].y == m.y
            && WriteStep(t, buf).page == (if m.curr == m.onScreen then v.page else m.page)
            && WriteStep(t, buf).saved[m.curr].page == (if m.curr == m.onScreen then m.saved[m.curr].page else v.page)
  {
    hide PutsStep, WriteStep;
    if m.curr == m.onScreen {
      WriteIsPuts(TickStep(m), buf);
    } else {
      BackgroundWrite(TickStep(m), buf);
    }
  }
}
