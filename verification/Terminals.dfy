/**
 * The three terminals behind one screen and one keyboard: what each interrupt and system call does
 * to the shared machine, and the three independent consoles it stands for.
 */
module Terminals {
  import opened Bytes
  import opened Console
  import opened WrappedText
  import opened Keyboard

  const TERMINALS := 3
  const KB_SIZE := 128
  const MAX_TYPED := 127

  datatype Flags = Flags(shift: bool, caps: bool, ctrl: bool, alt: bool)

  /** What `terminals[t]` and its back page hold; `direct` says that `video_buffer` is the screen itself. */
  datatype Saved = Saved(page: seq<Byte>, x: nat, y: nat, kb: seq<Byte>, idx: nat, entered: bool, direct: bool)

  /** The live screen, cursor and keyboard buffer, and everything saved for the three terminals. */
  datatype Machine = Machine(page: seq<Byte>, x: nat, y: nat, kb: seq<Byte>, idx: nat, count: int,
                             saved: seq<Saved>, onScreen: nat, curr: nat, flags: Flags) {
    function Live(): View { View(page, x, y) }

    function WithLive(v: View): Machine {
      this.(page := v.page, x := v.x, y := v.y)
    }
  }

  predicate ValidSaved(s: Saved) {
    ValidView(View(s.page, s.x, s.y)) && |s.kb| == KB_SIZE && s.idx <= MAX_TYPED
  }

  /** No index is past the last cell: a key that would take it there has left the buffer already. */
  predicate Shaped(m: Machine) {
    && ValidView(m.Live()) && |m.kb| == KB_SIZE && m.idx <= MAX_TYPED
    && |m.saved| == TERMINALS && m.onScreen < TERMINALS && m.curr < TERMINALS
    && ValidSaved(m.saved[0]) && ValidSaved(m.saved[1]) && ValidSaved(m.saved[2])
  }

  /** Once the three shells are running, the terminal that runs is the one on screen. */
  predicate Valid(m: Machine) {
    Shaped(m) && m.onScreen == m.curr
  }

  /** `putc` of the running terminal: the screen if it is on it (or for a key press), else its back page. */
  function PutTo(m: Machine, c: Byte, keypress: bool): (r: Machine)
    requires Shaped(m)
    ensures Shaped(r)
  {
    if m.onScreen == m.curr || keypress || m.saved[m.curr].direct then m.WithLive(PutcStep(m.Live(), c))
    else
      var s := m.saved[m.curr];
      var v := PutcStep(View(s.page, m.x, m.y), c);
      m.(saved := m.saved[m.curr := s.(page := v.page)], x := v.x, y := v.y)
  }

  /** `terminal_write`, one `putc` per byte. */
  function WriteStep(m: Machine, buf: seq<Byte>): (r: Machine)
    requires Shaped(m)
    ensures Shaped(r)
  {
    if buf == [] then m else PutTo(WriteStep(m, buf[..|buf| - 1]), buf[|buf| - 1], false)
  }

  /** `rm_c`: nothing is erased in the corner or when the line has no first character. */
  function RemoveStep(m: Machine): Machine
    requires Shaped(m)
  {
    if m.kb[0] == NEWLINE || m.kb[0] == NUL then m else m.WithLive(EraseStep(m.Live()))
  }

  datatype Action = Type(c: Byte) | Backspace | Tab | Enter | Switch(target: nat) | Nothing

  /** The flags after the shift, control, alt and caps lock part of `keyboard_handler`. */
  function FlagsAfter(f: Flags, scan: nat): Flags {
    Flags(
      if scan == 0x2A || scan == 0x36 then true else if scan == 0xAA || scan == 0xB6 then false else f.shift,
      if scan == 0x3A then !f.caps else f.caps,
      if scan == 0x1D then true else if scan == 0x9D then false else f.ctrl,
      if scan == 0x38 then true else if scan == 0xB8 then false else f.alt)
  }

  /** What the rest of `keyboard_handler` does with a scan code; a key is typed while the count allows it. */
  function ActionOf(f: Flags, count: int, scan: nat): Action {
    if scan == BACKSPACE_CODE then Backspace
    else if scan == TAB_CODE then Tab
    else if scan == ENTER_CODE then Enter
    else if F1_CODE <= scan < F1_CODE + TERMINALS then (if f.alt then Switch(scan - F1_CODE) else Nothing)
    else if count < MAX_TYPED && 1 < scan < TABLE_SIZE && !IsSpecial(scan) then Type(KeyChar(f.shift, f.caps, scan))
    else Nothing
  }

  /** The scan codes of the model: F11 has no table entry, and Ctrl+L clears the screen. */
  predicate Modelled(f: Flags, scan: nat) {
    scan != F11_CODE && !(scan == L_CODE && f.ctrl)
  }

  /** The action stays inside the 128 cells of the keyboard buffer. */
  predicate InBounds(m: Machine, a: Action) {
    a.Type? ==> m.idx + 1 < KB_SIZE
  }

  function TypeStep(m: Machine, c: Byte): Machine
    requires Shaped(m) && InBounds(m, Type(c))
  {
    PutTo(m, c, true).(kb := m.kb[m.idx := c][m.idx + 1 := NEWLINE], idx := m.idx + 1, count := m.count + 1)
  }

  function BackspaceStep(m: Machine): Machine
    requires Shaped(m)
  {
    if m.idx == 0 then m
    else RemoveStep(m).(kb := m.kb[m.idx - 1 := NUL], idx := m.idx - 1, count := m.count - 1)
  }

  function TabStep(m: Machine): Machine
    requires Shaped(m)
  {
    if m.idx >= MAX_TYPED then m
    else PutTo(m, SPACE, true).(kb := m.kb[m.idx := SPACE], idx := m.idx + 1, count := m.count + 1)
  }

  function EnterStep(m: Machine): Machine
    requires Shaped(m)
  {
    var saved := m.saved[m.onScreen := m.saved[m.onScreen].(entered := true)];
    PutTo(m, NEWLINE, true).(saved := saved, idx := 0, count := 0)
  }

  /** `switch_terminal_keypress`: the coordinates and the index are saved in bytes. */
  function SwitchStep(m: Machine, t: nat): Machine
    requires Shaped(m)
  {
    if t == m.onScreen || t >= TERMINALS then m
    else
      var out := m.saved[m.onScreen].(page := m.page, x := m.x % 256, y := m.y % 256, kb := m.kb, idx := m.idx % 256,
                                      direct := false);
      var back := m.saved[t];
      m.(page := back.page, x := back.x, y := back.y, kb := back.kb, idx := back.idx,
         saved := m.saved[m.onScreen := out], onScreen := t, curr := t)
  }

  function ActionStep(m: Machine, a: Action): Machine
    requires Shaped(m) && InBounds(m, a)
  {
    match a
    case Type(c) => TypeStep(m, c)
    case Backspace => BackspaceStep(m)
    case Tab => TabStep(m)
    case Enter => EnterStep(m)
    case Switch(t) => SwitchStep(m, t)
    case Nothing => m
  }

  /** A timer tick after boot: it saves the cursor and points the buffer of the running terminal. */
  function TickStep(m: Machine): Machine
    requires Shaped(m)
  {
    m.(saved := m.saved[m.curr := m.saved[m.curr].(x := m.x % 256, y := m.y % 256, direct := m.curr == m.onScreen)])
  }

  /** How many bytes `terminal_read` returns: up to the first NUL, but no more than asked for. */
  function LineLength(kb: seq<Byte>, nbytes: nat): nat {
    Min(|CString(kb, KB_SIZE)|, nbytes)
  }

  /** `terminal_read` after the enter key: the buffer is emptied unless nothing was asked for or typed. */
  function ReadLineStep(m: Machine, nbytes: nat): Machine
    requires Shaped(m)
  {
    if nbytes == 0 || m.kb[0] == NEWLINE then m
    else m.(kb := seq(KB_SIZE, _ => NUL), idx := 0,
            saved := m.saved[m.onScreen := m.saved[m.onScreen].(entered := false)])
  }

  datatype Event = Key(action: Action) | Flag(flags: Flags) | Write(buf: seq<Byte>) | Tick | ReadLine(nbytes: nat)

  predicate Allowed(m: Machine, ev: Event) {
    ev.Key? ==> InBounds(m, ev.action)
  }

  function Step(m: Machine, ev: Event): Machine
    requires Shaped(m) && Allowed(m, ev)
  {
    match ev
    case Key(a) => ActionStep(m, a)
    case Flag(f) => m.(flags := f)
    case Write(buf) => WriteStep(m, buf)
    case Tick => TickStep(m)
    case ReadLine(n) => ReadLineStep(m, n)
  }

  /** One terminal by itself. */
  datatype Terminal = Terminal(page: seq<Byte>, x: nat, y: nat, kb: seq<Byte>, idx: nat, entered: bool)

  /** The terminal on screen is the live one, the others are as they were saved. */
  function TerminalOf(m: Machine, t: nat): Terminal
    requires Valid(m) && t < TERMINALS
  {
    if t == m.onScreen then Terminal(m.page, m.x, m.y, m.kb, m.idx, m.saved[t].entered)
    else var s := m.saved[t]; Terminal(s.page, s.x, s.y, s.kb, s.idx, s.entered)
  }

  /** The machine that has only the console `c` and the shared character count. */
  function Alone(c: Terminal, count: int): Machine {
    var s := Saved(c.page, c.x, c.y, c.kb, c.idx, c.entered, false);
    Machine(c.page, c.x, c.y, c.kb, c.idx, count, [s, s, s], 0, 0, Flags(false, false, false, false))
  }

  predicate ValidTerminal(c: Terminal) {
    ValidView(View(c.page, c.x, c.y)) && |c.kb| == KB_SIZE && c.idx <= MAX_TYPED
  }

  /** What an event does to the console it concerns, as if there were no other. */
  function TerminalStep(c: Terminal, count: int, ev: Event): Terminal
    requires ValidTerminal(c) && Allowed(Alone(c, count), ev)
  {
    if ev.Key? && ev.action.Switch? then c else TerminalOf(KeepsAlone(c, count, ev), 0)
  }

  function KeepsAlone(c: Terminal, count: int, ev: Event): (m: Machine)
    requires ValidTerminal(c) && Allowed(Alone(c, count), ev) && !(ev.Key? && ev.action.Switch?)
    ensures Valid(m) && m.onScreen == 0
  {
    StepKeepsValid(Alone(c, count), ev);
    Step(Alone(c, count), ev)
  }

  /** Output of the terminal on screen goes to the screen. */
  lemma {:induction false} WriteIsPuts(m: Machine, buf: seq<Byte>)
    requires Valid(m)
    ensures WriteStep(m, buf) == m.WithLive(PutsStep(m.Live(), buf))
  {
    hide PutcStep;
    if buf != [] {
      WriteIsPuts(m, buf[..|buf| - 1]);
    }
  }

  lemma KeyKeepsValid(m: Machine, a: Action)
    requires Valid(m) && InBounds(m, a)
    ensures Valid(ActionStep(m, a))
    ensures ActionStep(m, a).onScreen == if a.Switch? && a.target < TERMINALS then a.target else m.onScreen
  {
    hide PutcStep, EraseStep;
  }

  /** No event parts the running terminal from the one on screen. */
  lemma StepKeepsValid(m: Machine, ev: Event)
    requires Valid(m) && Allowed(m, ev)
    ensures Valid(Step(m, ev))
    ensures Step(m, ev).onScreen ==
            if ev.Key? && ev.action.Switch? && ev.action.target < TERMINALS then ev.action.target else m.onScreen
  {
    hide PutcStep, EraseStep;
    match ev
    case Key(a) => KeyKeepsValid(m, a);
    case Write(buf) => WriteIsPuts(m, buf);
    case _ =>
  }

  /** Events on the terminal on screen act as they would if it were alone. */
  lemma SameAlone(m: Machine, ev: Event)
    requires Valid(m) && Allowed(m, ev) && !(ev.Key? && ev.action.Switch?)
    ensures TerminalOf(KeepsAlone(TerminalOf(m, m.onScreen), m.count, ev), 0) ==
            (StepKeepsValid(m, ev); TerminalOf(Step(m, ev), m.onScreen))
  {
    hide PutcStep, EraseStep, PutsStep;
    StepKeepsValid(m, ev);
    var a := Alone(TerminalOf(m, m.onScreen), m.count);
    StepKeepsValid(a, ev);
    match ev
    case Key(act) => KeySameAlone(m, act);
    case Write(buf) =>
      WriteIsPuts(m, buf);
      WriteIsPuts(a, buf);
    case _ =>
  }

  lemma KeySameAlone(m: Machine, act: Action)
    requires Valid(m) && InBounds(m, act) && !act.Switch?
    ensures var a := Alone(TerminalOf(m, m.onScreen), m.count);
            Valid(ActionStep(a, act)) && Valid(ActionStep(m, act)) &&
            ActionStep(m, act).onScreen == m.onScreen && ActionStep(a, act).onScreen == 0 &&
            TerminalOf(ActionStep(a, act), 0) == TerminalOf(ActionStep(m, act), m.onScreen)
  {
    hide PutcStep, EraseStep;
    KeyKeepsValid(m, act);
    KeyKeepsValid(Alone(TerminalOf(m, m.onScreen), m.count), act);
  }

  /** The other terminals stay as they are. */
  lemma OthersUntouched(m: Machine, ev: Event, t: nat)
    requires Valid(m) && Allowed(m, ev) && !(ev.Key? && ev.action.Switch?) && t < TERMINALS && t != m.onScreen
    ensures Valid(Step(m, ev)) && TerminalOf(Step(m, ev), t) == TerminalOf(m, t)
  {
    hide PutcStep, EraseStep, PutsStep;
    StepKeepsValid(m, ev);
    if ev.Write? {
      WriteIsPuts(m, ev.buf);
    }
  }

  /** A switch keeps all three terminals, the one it leaves, the one it shows, and the third. */
  lemma SwitchKeepsTerminals(m: Machine, target: nat, t: nat)
    requires Valid(m) && t < TERMINALS
    ensures Valid(SwitchStep(m, target)) && TerminalOf(SwitchStep(m, target), t) == TerminalOf(m, t)
  {
  }

  /**
   * The machine is three independent terminals: an event changes only the one on screen, in the way
   * it would without the others, and a switch changes none of them.
   */
  lemma StepIsLocal(m: Machine, ev: Event, t: nat)
    requires Valid(m) && Allowed(m, ev) && t < TERMINALS
    ensures Valid(Step(m, ev))
    ensures TerminalOf(Step(m, ev), t) ==
            if t == m.onScreen then TerminalStep(TerminalOf(m, t), m.count, ev) else TerminalOf(m, t)
  {
    hide PutcStep, EraseStep, PutsStep;
    StepKeepsValid(m, ev);
    if ev.Key? && ev.action.Switch? {
      SwitchKeepsTerminals(m, ev.action.target, t);
    } else if t == m.onScreen {
      SameAlone(m, ev);
    } else {
      OthersUntouched(m, ev, t);
    }
  }
}
