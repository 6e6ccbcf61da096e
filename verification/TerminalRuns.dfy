/** Whole runs of the terminals: independence, the edit session, and reading the line back. */
module TerminalRuns {
  import opened Bytes
  import opened Console
  import opened WrappedText
  import opened Keyboard
  import opened Terminals

  /** Every event of the run stays inside the keyboard buffer. */
  predicate AllowedRun(m: Machine, es: seq<Event>)
    requires Valid(m)
    decreases |es|, 0
  {
    es == [] || (AllowedRun(m, es[..|es| - 1]) && Allowed(Run(m, es[..|es| - 1]), es[|es| - 1]))
  }

  function Run(m: Machine, es: seq<Event>): (r: Machine)
    requires Valid(m) && AllowedRun(m, es)
    ensures Valid(r)
    decreases |es|, 1
  {
    if es == [] then m else After(Run(m, es[..|es| - 1]), es[|es| - 1])
  }

  function After(m: Machine, ev: Event): (r: Machine)
    requires Valid(m) && Allowed(m, ev)
    ensures Valid(r)
  {
    StepKeepsValid(m, ev);
    Step(m, ev)
  }

  /** Terminal `t` by itself: only the events that happened while it was on screen. */
  ghost function OwnHistory(m: Machine, es: seq<Event>, t: nat): (c: Terminal)
    requires Valid(m) && AllowedRun(m, es) && t < TERMINALS
    ensures c == TerminalOf(Run(m, es), t)
  {
    if es == [] then TerminalOf(m, t)
    else
      var before, ev := Run(m, es[..|es| - 1]), es[|es| - 1];
      var c := OwnHistory(m, es[..|es| - 1], t);
      StepIsLocal(before, ev, t);
      if t == before.onScreen then TerminalStep(c, before.count, ev) else c
  }

  /** Nothing but switches happens while `t` is on screen. */
  predicate Away(m: Machine, es: seq<Event>, t: nat)
    requires Valid(m) && AllowedRun(m, es)
  {
    es == [] ||
    (Away(m, es[..|es| - 1], t) &&
     (Run(m, es[..|es| - 1]).onScreen == t ==> es[|es| - 1].Key? && es[|es| - 1].action.Switch?))
  }

  /** Whatever happens on the other terminals, a terminal is found again as it was left. */
  lemma {:induction false} ComingBackRestores(m: Machine, es: seq<Event>, t: nat)
    requires Valid(m) && AllowedRun(m, es) && t < TERMINALS && Away(m, es, t)
    ensures TerminalOf(Run(m, es), t) == TerminalOf(m, t)
  {
    if es != [] {
      ComingBackRestores(m, es[..|es| - 1], t);
      StepIsLocal(Run(m, es[..|es| - 1]), es[|es| - 1], t);
    }
  }

  /** The keys that edit a line. */
  predicate EditKey(a: Action) {
    a.Type? || a.Tab? || a.Backspace?
  }

  /** A key that edits; a character is typed only while the count lets it. */
  predicate PressInBounds(m: Machine, a: Action) {
    EditKey(a) && (a.Type? && m.count < MAX_TYPED ==> InBounds(m, a))
  }

  function PressOne(m: Machine, a: Action): (r: Machine)
    requires Valid(m) && PressInBounds(m, a)
    ensures Valid(r)
    ensures r.idx - m.idx == r.count - m.count ==
            match a {
              case Type(c) => if m.count < MAX_TYPED then 1 else 0
              case Tab => if m.idx < MAX_TYPED then 1 else 0
              case _ => if m.idx > 0 then -1 else 0
            }
  {
    if a.Type? && m.count >= MAX_TYPED then m
    else
      KeyKeepsValid(m, a);
      ActionStep(m, a)
  }

  /** The keys of the sequence are pressed one after the other, and none stores outside the keyboard buffer. */
  predicate KeysInBounds(m: Machine, ks: seq<Action>)
    requires Valid(m)
    decreases |ks|, 0
  {
    ks == [] || (KeysInBounds(m, ks[..|ks| - 1]) && PressInBounds(PressAll(m, ks[..|ks| - 1]), ks[|ks| - 1]))
  }

  function PressAll(m: Machine, ks: seq<Action>): (r: Machine)
    requires Valid(m) && KeysInBounds(m, ks)
    ensures Valid(r) && r.idx - m.idx == r.count - m.count
    decreases |ks|, 1
  {
    if ks == [] then m else PressOne(PressAll(m, ks[..|ks| - 1]), ks[|ks| - 1])
  }

  predicate EditKeys(ks: seq<Action>) {
    forall i :: 0 <= i < |ks| ==> EditKey(ks[i])
  }

  /** An index that is not ahead of the count never gets ahead of it, and then no key leaves the buffer. */
  lemma {:induction false} KeysStayInBounds(m: Machine, ks: seq<Action>)
    requires Valid(m) && m.idx <= m.count && EditKeys(ks)
    ensures KeysInBounds(m, ks)
  {
    if ks != [] {
      KeysStayInBounds(m, ks[..|ks| - 1]);
    }
  }

  /** The characters of a text as keys. */
  function Types(s: seq<Byte>): (ks: seq<Action>)
    ensures |ks| == |s| && EditKeys(ks)
  {
    seq(|s|, i requires 0 <= i < |s| => Type(s[i]))
  }

  lemma TypesOneMore(s: seq<Byte>)
    requires s != []
    ensures Types(s)[..|s| - 1] == Types(s[..|s| - 1]) && Types(s)[|s| - 1] == Type(s[|s| - 1])
  {
  }

  /** With the index ahead, the buffer is full before the count is. */
  lemma {:induction false} TypingRunsOver(m: Machine, s: seq<Byte>)
    requires Valid(m) && m.count < m.idx && |s| <= MAX_TYPED - m.idx
    ensures KeysInBounds(m, Types(s)) && PressAll(m, Types(s)).idx == m.idx + |s|
  {
    if s != [] {
      TypesOneMore(s);
      TypingRunsOver(m, s[..|s| - 1]);
    }
  }

  /**
   * Whatever characters, tabs and backspaces are pressed, all stores stay inside the keyboard buffer if
   * and only if the index is not ahead of the count.
   */
  lemma EditingStaysInBoundsExactly(m: Machine)
    requires Valid(m)
    ensures (forall ks :: EditKeys(ks) ==> KeysInBounds(m, ks)) <==> m.idx <= m.count
  {
    if m.idx <= m.count {
      forall ks | EditKeys(ks) ensures KeysInBounds(m, ks) {
        KeysStayInBounds(m, ks);
      }
    } else {
      var s := seq(MAX_TYPED - m.idx + 1, _ => SPACE);
      TypesOneMore(s);
      TypingRunsOver(m, s[..|s| - 1]);
      assert !KeysInBounds(m, Types(s));
    }
  }

  /** A line as a stack of characters. */
  function Edit(line: seq<Byte>, a: Action): seq<Byte> {
    match a
    case Type(c) => line + [c]
    case Tab => if |line| < MAX_TYPED then line + [SPACE] else line
    case Backspace => if line == [] then [] else line[..|line| - 1]
    case _ => line
  }

  /**
   * In an edit session the buffer holds the line and behind it nothing but NULs and newlines, and
   * index and count are its length.
   */
  predicate Editing(m: Machine, line: seq<Byte>) {
    && Valid(m) && m.idx == m.count == |line| <= MAX_TYPED
    && m.kb[..m.idx] == line && Printable(line)
    && (forall k :: m.idx <= k < KB_SIZE ==> m.kb[k] == NUL || m.kb[k] == NEWLINE)
    && (line == [] ==> m.kb[0] == NUL)
  }

  predicate Edits(a: Action) {
    (a.Type? && Printable([a.c])) || a.Tab? || a.Backspace? || a.Nothing?
  }

  /** Each key edits the line as a stack, within the buffer. */
  lemma EditStep(m: Machine, line: seq<Byte>, a: Action)
    requires Editing(m, line) && Edits(a) && (a.Type? ==> m.count < MAX_TYPED)
    ensures InBounds(m, a) && Editing(ActionStep(m, a), Edit(line, a))
  {
    hide PutcStep, EraseStep;
    KeyKeepsValid(m, a);
    var t := ActionStep(m, a);
    assert t.kb[..t.idx] == Edit(line, a);
    if a.Type? {
      assert Printable([a.c]) && [a.c][0] == a.c;
    }
  }

  /** One key press: the flags first, then the action. */
  predicate KeyInBounds(m: Machine, scan: nat) {
    InBounds(m, ActionOf(FlagsAfter(m.flags, scan), m.count, scan))
  }

  function HandlerStep(m: Machine, scan: nat): Machine
    requires Shaped(m) && KeyInBounds(m, scan)
  {
    var f := FlagsAfter(m.flags, scan);
    ActionStep(m.(flags := f), ActionOf(f, m.count, scan))
  }

  /** The scan code does not end the session: it is neither enter nor a terminal switch. */
  predicate InSession(f: Flags, scan: nat) {
    Modelled(f, scan) && scan != ENTER_CODE && !(f.alt && F1_CODE <= scan < F1_CODE + TERMINALS)
  }

  lemma SessionKeysEdit(f: Flags, count: int, scan: nat)
    requires InSession(f, scan)
    ensures Edits(ActionOf(f, count, scan))
    ensures ActionOf(f, count, scan).Type? ==> count < MAX_TYPED
  {
    if ActionOf(f, count, scan).Type? {
      TypedKeysArePrintable(f.shift, f.caps, scan);
    }
  }

  lemma SessionKeyEdits(m: Machine, scan: nat, line: seq<Byte>)
    requires Editing(m, line) && InSession(FlagsAfter(m.flags, scan), scan)
    ensures KeyInBounds(m, scan)
    ensures Editing(HandlerStep(m, scan), Edit(line, ActionOf(FlagsAfter(m.flags, scan), m.count, scan)))
  {
    var f := FlagsAfter(m.flags, scan);
    SessionKeysEdit(f, m.count, scan);
    EditStep(m.(flags := f), line, ActionOf(f, m.count, scan));
  }

  /** A key press that leaves the buffer is not modelled further: the machine stays as it was. */
  function Press(m: Machine, scan: nat): Machine {
    if Shaped(m) && KeyInBounds(m, scan) then HandlerStep(m, scan) else m
  }

  function Session(m: Machine, scans: seq<nat>): Machine {
    if scans == [] then m else Press(Session(m, scans[..|scans| - 1]), scans[|scans| - 1])
  }

  predicate InSessionTo(m: Machine, scans: seq<nat>) {
    scans == [] ||
    (InSessionTo(m, scans[..|scans| - 1]) &&
     InSession(FlagsAfter(Session(m, scans[..|scans| - 1]).flags, scans[|scans| - 1]), scans[|scans| - 1]))
  }

  /** The line of the session as a stack, from the same keys. */
  function SessionLine(m: Machine, line: seq<Byte>, scans: seq<nat>): seq<Byte> {
    if scans == [] then line
    else
      var p, scan := Session(m, scans[..|scans| - 1]), scans[|scans| - 1];
      Edit(SessionLine(m, line, scans[..|scans| - 1]), ActionOf(FlagsAfter(p.flags, scan), p.count, scan))
  }

  /** Through a whole session the buffer is the edited line. */
  lemma {:induction false} SessionKeepsEditing(m: Machine, line: seq<Byte>, scans: seq<nat>)
    requires Editing(m, line) && InSessionTo(m, scans)
    ensures Editing(Session(m, scans), SessionLine(m, line, scans))
  {
    if scans != [] {
      SessionKeepsEditing(m, line, scans[..|scans| - 1]);
      SessionKeyEdits(Session(m, scans[..|scans| - 1]), scans[|scans| - 1], SessionLine(m, line, scans[..|scans| - 1]));
    }
  }

  /** ... and no key of it leaves the buffer. */
  lemma SessionStaysInBounds(m: Machine, line: seq<Byte>, scans: seq<nat>, scan: nat)
    requires Editing(m, line) && InSessionTo(m, scans)
    requires InSession(FlagsAfter(Session(m, scans).flags, scan), scan)
    ensures KeyInBounds(Session(m, scans), scan)
  {
    SessionKeepsEditing(m, line, scans);
    SessionKeyEdits(Session(m, scans), scan, SessionLine(m, line, scans));
  }

  /** The NUL in the last cell survives every key but the 127th character, after which no NUL is left. */
  lemma LastCellSurvivesExactly(m: Machine, line: seq<Byte>, a: Action)
    requires Editing(m, line) && Edits(a) && (a.Type? ==> m.count < MAX_TYPED) && m.kb[KB_SIZE - 1] == NUL
    ensures InBounds(m, a)
    ensures ActionStep(m, a).kb[KB_SIZE - 1] == NUL <==> !(a.Type? && m.idx == MAX_TYPED - 1)
    ensures a.Type? && m.idx == MAX_TYPED - 1 ==> NUL !in ActionStep(m, a).kb
  {
    hide PutcStep, EraseStep;
    EditStep(m, line, a);
    var t := ActionStep(m, a);
    if a.Type? && m.idx == MAX_TYPED - 1 {
      forall k | 0 <= k < KB_SIZE ensures t.kb[k] != NUL {
        assert k < t.idx ==> t.kb[k] == Edit(line, a)[k];
      }
    }
  }

  /** Newlines only. */
  predicate Newlines(s: seq<Byte>) {
    forall k :: 0 <= k < |s| ==> s[k] == NEWLINE
  }

  /**
   * What a read finds after the session: the line, then newlines only. The empty line, too, goes the
   * way of the others and empties the buffer.
   */
  lemma ReadFindsLine(m: Machine, line: seq<Byte>)
    requires Editing(m, line)
    ensures var found := CString(EnterStep(m).kb, KB_SIZE);
            line <= found && Newlines(found[|line|..])
    ensures EnterStep(m).kb[0] != NEWLINE && EnterStep(m).saved[m.onScreen].entered
  {
    hide PutcStep;
    var found := CString(m.kb, KB_SIZE);
    CStringReaches(m.kb, KB_SIZE, |line|);
    assert found[..|line|] == m.kb[..|found|][..|line|] == line;
    forall k | |line| <= k < |found| ensures found[k] == NEWLINE {
      assert found[k] == m.kb[k] && found[k] in found;
    }
  }

  /** What a read returns: the line and then newlines, as many bytes as asked for or up to the first NUL. */
  lemma ReadReturnsLine(m: Machine, line: seq<Byte>, nbytes: nat)
    requires Editing(m, line) && NUL in m.kb
    ensures var kb := EnterStep(m).kb;
            var r := LineLength(kb, nbytes);
            && r < KB_SIZE && r <= nbytes
            && kb[..r] == (line + seq(KB_SIZE - |line|, _ => NEWLINE))[..r]
            && (r < nbytes ==> |line| <= r && kb[r] == NUL)
  {
    hide PutcStep;
    ReadFindsLine(m, line);
    var kb := m.kb;
    var found := CString(kb, KB_SIZE);
    assert found == kb ==> NUL !in kb;
    assert found == kb[..|found|];
    var r := LineLength(kb, nbytes);
    forall k | 0 <= k < r ensures kb[k] == (line + seq(KB_SIZE - |line|, _ => NEWLINE))[k] {
      assert kb[k] == found[k];
      assert k < |line| ==> found[k] == line[k];
      assert |line| <= k ==> found[k] == found[|line|..][k - |line|];
    }
  }

  /** The next session starts afresh. */
  lemma ReadStartsSession(m: Machine, line: seq<Byte>, nbytes: nat)
    requires Editing(m, line) && nbytes > 0
    ensures Valid(EnterStep(m)) && Editing(ReadLineStep(EnterStep(m), nbytes), [])
  {
    hide PutcStep;
    ReadFindsLine(m, line);
    KeyKeepsValid(m, Enter);
    StepKeepsValid(EnterStep(m), ReadLine(nbytes));
  }

  /** `n` backspaces. */
  function BackspaceAll(m: Machine, n: nat): (r: Machine)
    requires Valid(m)
    ensures Valid(r)
  {
    if n == 0 then m
    else
      KeyKeepsValid(BackspaceAll(m, n - 1), Backspace);
      BackspaceStep(BackspaceAll(m, n - 1))
  }

  /** One typed character, in the buffer and on the screen. */
  lemma TypeOneEdits(m: Machine, line: seq<Byte>, c: Byte, log: Log)
    requires Editing(m, line) && |line| < MAX_TYPED && Printable([c]) && ValidLog(log) && Shows(m.Live(), log)
    ensures InBounds(m, Type(c)) && m.count < MAX_TYPED
    ensures Editing(PressOne(m, Type(c)), line + [c]) && Shows(PressOne(m, Type(c)).Live(), LogPut(log, c))
  {
    hide PutcStep, Shows;
    EditStep(m, line, Type(c));
    PutcShowsLog(m.Live(), log, c);
  }

  lemma PrintableParts(s: seq<Byte>)
    requires Printable(s) && s != []
    ensures Printable(s[..|s| - 1]) && Printable([s[|s| - 1]]) && s == s[..|s| - 1] + [s[|s| - 1]]
  {
    assert forall i :: 0 <= i < |s| - 1 ==> s[..|s| - 1][i] == s[i];
  }

  lemma EditingIsValid(m: Machine, line: seq<Byte>)
    requires Editing(m, line)
    ensures Valid(m)
  {
  }

  lemma {:induction false} TypingEdits(m: Machine, line: seq<Byte>, s: seq<Byte>, log: Log)
    requires Editing(m, line) && Printable(s) && |line| + |s| <= MAX_TYPED
    requires ValidLog(log) && Shows(m.Live(), log)
    ensures KeysInBounds(m, Types(s))
    ensures Editing(PressAll(m, Types(s)), line + s) && Shows(PressAll(m, Types(s)).Live(), LogPuts(log, s))
  {
    hide PutcStep, Shows, Valid, Editing, PressOne, LogPut, Printable;
    EditingIsValid(m, line);
    if s == [] {
      assert line + s == line;
    } else {
      PrintableParts(s);
      var rest, c := s[..|s| - 1], s[|s| - 1];
      TypesOneMore(s);
      TypingEdits(m, line, rest, log);
      TypeOneEdits(PressAll(m, Types(rest)), line + rest, c, LogPuts(log, rest));
      ConcatAssociates(line, rest, [c]);
    }
  }

  lemma BackspaceEdits(m: Machine, line: seq<Byte>, log: Log)
    requires Editing(m, line) && line != [] && ValidLog(log) && Shows(m.Live(), log)
    ensures Editing(BackspaceStep(m), line[..|line| - 1]) && Shows(BackspaceStep(m).Live(), LogErase(log))
  {
    hide EraseStep, Shows;
    EditStep(m, line, Backspace);
    assert m.kb[0] == m.kb[..m.idx][0] == line[0];
    EraseShowsLog(m.Live(), log);
  }

  lemma {:induction false} BackspacingEdits(m: Machine, line: seq<Byte>, n: nat, log: Log)
    requires Editing(m, line) && n <= |line| && ValidLog(log) && Shows(m.Live(), log)
    ensures Editing(BackspaceAll(m, n), line[..|line| - n]) && Shows(BackspaceAll(m, n).Live(), LogErases(log, n))
  {
    hide EraseStep, Shows, BackspaceStep;
    if n == 0 {
      assert line[..|line|] == line;
    } else {
      hide Editing;
      BackspacingEdits(m, line, n - 1, log);
      var rest := line[..|line| - n + 1];
      BackspaceEdits(BackspaceAll(m, n - 1), rest, LogErases(log, n - 1));
      assert rest[..|rest| - 1] == line[..|line| - n];
    }
  }

  /**
   * Typing characters and as many backspaces brings back the line, the index, and the cursor's
   * place in the text, even if the typing wrapped a row or scrolled the screen.
   */
  lemma BackspacesUndoTyping(m: Machine, line: seq<Byte>, s: seq<Byte>, log: Log)
    requires Editing(m, line) && Printable(s) && |line| + |s| <= MAX_TYPED && Shows(m.Live(), log)
    ensures KeysInBounds(m, Types(s))
    ensures var t := BackspaceAll(PressAll(m, Types(s)), |s|);
            && Editing(t, line)
            && exists log' :: Shows(t.Live(), log') && log'.pos == log.pos && |log'.cells| >= |log.cells| &&
                 forall k :: 0 <= k < |log.cells| && !(log.pos <= k < log.pos + |s|) ==> log'.cells[k] == log.cells[k]
  {
    TypingEdits(m, line, s, log);
    BackspacingEdits(PressAll(m, Types(s)), line + s, |s|, LogPuts(log, s));
    assert (line + s)[..|line + s| - |s|] == line;
    TypeThenErase(log, s);
    var log' := LogErases(LogPuts(log, s), |s|);
    assert Shows(BackspaceAll(PressAll(m, Types(s)), |s|).Live(), log');
  }
}
