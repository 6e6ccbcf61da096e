/**
 * The three consoles the terminals are meant to be, each with a line and a length of its own, and runs of
 * scan codes, output, ticks and reads on both.
 */
module Consoles {
  import opened Bytes
  import opened Console
  import opened Keyboard
  import opened Terminals
  import opened TerminalRuns

  /** A scan code from the keyboard, or an event that is no key. */
  datatype Input = Press(scan: nat) | Call(ev: Event)

  /** Three consoles, the one on screen, and the modifier keys; there is no shared count. */
  datatype Desk = Desk(consoles: seq<Terminal>, onScreen: nat, flags: Flags)

  predicate ValidDesk(d: Desk) {
    && |d.consoles| == TERMINALS && d.onScreen < TERMINALS
    && forall t :: 0 <= t < TERMINALS ==> ValidTerminal(d.consoles[t])
  }

  predicate ValidInput(f: Flags, i: Input) {
    match i
    case Press(scan) => Modelled(FlagsAfter(f, scan), scan)
    case Call(ev) => !ev.Key? && !ev.Flag?
  }

  /** An event on one console, which needs no count. */
  function Own(c: Terminal, ev: Event): Terminal
    requires ValidTerminal(c) && Allowed(Alone(c, 0), ev)
  {
    TerminalStep(c, 0, ev)
  }

  /** A key is typed while the line of the console on screen has room. */
  function DeskStep(d: Desk, i: Input): Desk
    requires ValidDesk(d) && ValidInput(d.flags, i)
  {
    var c := d.consoles[d.onScreen];
    match i
    case Press(scan) =>
      var f := FlagsAfter(d.flags, scan);
      var a := ActionOf(f, c.idx, scan);
      if a.Switch? then d.(flags := f, onScreen := a.target)
      else d.(flags := f, consoles := d.consoles[d.onScreen := Own(c, Key(a))])
    case Call(ev) => d.(consoles := d.consoles[d.onScreen := Own(c, ev)])
  }

  /** The consoles a machine stands for. */
  function DeskOf(m: Machine): (d: Desk)
    requires Valid(m)
    ensures ValidDesk(d)
  {
    Desk([TerminalOf(m, 0), TerminalOf(m, 1), TerminalOf(m, 2)], m.onScreen, m.flags)
  }

  /** The input does not take the machine out of its keyboard buffer. */
  predicate Takes(m: Machine, i: Input) {
    ValidInput(m.flags, i) && (i.Press? ==> KeyInBounds(m, i.scan))
  }

  function InputStep(m: Machine, i: Input): (r: Machine)
    requires Valid(m) && Takes(m, i)
    ensures Valid(r)
  {
    match i
    case Press(scan) => HandlerKeepsValid(m, scan); HandlerStep(m, scan)
    case Call(ev) => StepKeepsValid(m, ev); Step(m, ev)
  }

  lemma HandlerKeepsValid(m: Machine, scan: nat)
    requires Valid(m) && KeyInBounds(m, scan)
    ensures Valid(HandlerStep(m, scan))
  {
    hide PutcStep, EraseStep;
    var f := FlagsAfter(m.flags, scan);
    KeyKeepsValid(m.(flags := f), ActionOf(f, m.count, scan));
  }

  /** The shared count lets a key be typed exactly when the line on screen has room for it. */
  predicate CountAgrees(m: Machine) {
    m.count < MAX_TYPED <==> m.idx < MAX_TYPED
  }

  /** Every scan code acts as the line on screen alone decides if and only if the count agrees with it. */
  lemma KeysActAsOwnExactly(m: Machine)
    ensures (forall f, scan :: ActionOf(f, m.count, scan) == ActionOf(f, m.idx, scan)) <==> CountAgrees(m)
  {
    var f := Flags(false, false, false, false);
    assert ActionOf(f, m.count, A_CODE).Type? <==> m.count < MAX_TYPED;
    assert ActionOf(f, m.idx, A_CODE).Type? <==> m.idx < MAX_TYPED;
  }

  lemma KeyCountIsIdle(c: Terminal, count: int, a: Action)
    requires ValidTerminal(c) && InBounds(Alone(c, count), a) && !a.Switch?
    ensures ActionStep(Alone(c, count), a) == ActionStep(Alone(c, 0), a).(count := ActionStep(Alone(c, count), a).count)
  {
    hide PutcStep, EraseStep;
  }

  /** The count of a terminal that is alone decides nothing. */
  lemma CountIsIdle(c: Terminal, count: int, ev: Event)
    requires ValidTerminal(c) && Allowed(Alone(c, count), ev)
    ensures TerminalStep(c, count, ev) == Own(c, ev)
  {
    hide PutcStep, EraseStep, PutsStep, ActionStep;
    match ev
    case Key(a) => if !a.Switch? { KeyCountIsIdle(c, count, a); }
    case Write(buf) =>
      WriteIsPuts(Alone(c, count), buf);
      WriteIsPuts(Alone(c, 0), buf);
    case _ =>
  }

  /** An event that is no switch, on the machine and on the console on screen. */
  lemma EventIsOwn(m: Machine, ev: Event)
    requires Valid(m) && Allowed(m, ev) && !(ev.Key? && ev.action.Switch?) && !ev.Flag?
    ensures var t, own := Step(m, ev), Own(TerminalOf(m, m.onScreen), ev);
            Valid(t) && DeskOf(t) == DeskOf(m).(consoles := DeskOf(m).consoles[m.onScreen := own])
  {
    hide PutcStep, EraseStep, PutsStep, TerminalStep, Own;
    StepKeepsValid(m, ev);
    StepIsLocal(m, ev, 0);
    StepIsLocal(m, ev, 1);
    StepIsLocal(m, ev, 2);
    CountIsIdle(TerminalOf(m, m.onScreen), m.count, ev);
    FlagsStay(m, ev);
  }

  lemma FlagsStay(m: Machine, ev: Event)
    requires Valid(m) && Allowed(m, ev) && !ev.Flag?
    ensures Step(m, ev).flags == m.flags
  {
    hide PutcStep, EraseStep, PutsStep;
    if ev.Write? { WriteIsPuts(m, ev.buf); }
  }

  /** With a count that agrees, the machine does what the three consoles would. */
  lemma InputRefines(m: Machine, i: Input)
    requires Valid(m) && ValidInput(m.flags, i) && (i.Press? ==> CountAgrees(m))
    ensures Takes(m, i) && DeskOf(InputStep(m, i)) == DeskStep(DeskOf(m), i)
  {
    hide PutcStep, EraseStep, PutsStep, Own;
    match i
    case Call(ev) => EventIsOwn(m, ev);
    case Press(scan) =>
      var f := FlagsAfter(m.flags, scan);
      var n, a := m.(flags := f), ActionOf(f, m.count, scan);
      assert a == ActionOf(f, m.idx, scan) && InBounds(m, a);
      if a.Switch? {
        SwitchKeepsTerminals(n, a.target, 0);
        SwitchKeepsTerminals(n, a.target, 1);
        SwitchKeepsTerminals(n, a.target, 2);
      } else {
        EventIsOwn(n, Key(a));
      }
  }

  /** For one input the machine does what the three consoles would. */
  predicate Refines(m: Machine, i: Input)
    requires Valid(m) && ValidInput(m.flags, i)
  {
    Takes(m, i) && DeskOf(InputStep(m, i)) == DeskStep(DeskOf(m), i)
  }

  /** The terminals are three consoles for every scan code if and only if the count agrees. */
  lemma InputRefinesExactly(m: Machine)
    requires Valid(m)
    ensures (forall scan :: Modelled(FlagsAfter(m.flags, scan), scan) ==> Refines(m, Press(scan))) <==> CountAgrees(m)
  {
    if CountAgrees(m) {
      forall scan | Modelled(FlagsAfter(m.flags, scan), scan) ensures Refines(m, Press(scan)) {
        InputRefines(m, Press(scan));
      }
    } else {
      TypingDiffers(m);
    }
  }

  lemma TypingDiffers(m: Machine)
    requires Valid(m) && !CountAgrees(m)
    ensures Modelled(FlagsAfter(m.flags, A_CODE), A_CODE) && !Refines(m, Press(A_CODE))
  {
    hide PutcStep;
    if m.count >= MAX_TYPED {
      assert DeskOf(InputStep(m, Press(A_CODE))).consoles[m.onScreen].idx == m.idx;
      assert DeskStep(DeskOf(m), Press(A_CODE)).consoles[m.onScreen].idx == m.idx + 1;
    }
  }

  /** No input of the run takes the machine out of its buffer. */
  predicate TakesAll(m: Machine, ins: seq<Input>)
    requires Valid(m)
    decreases |ins|, 0
  {
    ins == [] || (TakesAll(m, ins[..|ins| - 1]) && Takes(InputRun(m, ins[..|ins| - 1]), ins[|ins| - 1]))
  }

  function InputRun(m: Machine, ins: seq<Input>): (r: Machine)
    requires Valid(m) && TakesAll(m, ins)
    ensures Valid(r)
    decreases |ins|, 1
  {
    if ins == [] then m else InputStep(InputRun(m, ins[..|ins| - 1]), ins[|ins| - 1])
  }

  /** The consoles after the inputs; an input outside the model changes nothing. */
  function DeskRun(d: Desk, ins: seq<Input>): (r: Desk)
    requires ValidDesk(d)
    ensures ValidDesk(r)
  {
    if ins == [] then d
    else
      var before, i := DeskRun(d, ins[..|ins| - 1]), ins[|ins| - 1];
      if ValidInput(before.flags, i) then DeskStepKeepsValid(before, i); DeskStep(before, i) else before
  }

  lemma DeskStepKeepsValid(d: Desk, i: Input)
    requires ValidDesk(d) && ValidInput(d.flags, i)
    ensures ValidDesk(DeskStep(d, i))
  {
    hide PutcStep, EraseStep, PutsStep;
    var c := d.consoles[d.onScreen];
    if i.Call? {
      OwnKeepsValid(c, i.ev);
    } else {
      var a := ActionOf(FlagsAfter(d.flags, i.scan), c.idx, i.scan);
      if !a.Switch? { OwnKeepsValid(c, Key(a)); }
    }
  }

  lemma OwnKeepsValid(c: Terminal, ev: Event)
    requires ValidTerminal(c) && Allowed(Alone(c, 0), ev)
    ensures ValidTerminal(Own(c, ev))
  {
    if !(ev.Key? && ev.action.Switch?) {
      var m := KeepsAlone(c, 0, ev);
      assert Valid(m);
    }
  }

  /** Whenever a scan code arrives in the run, the count agrees with the line on screen. */
  predicate AgreesThroughout(m: Machine, ins: seq<Input>)
    requires Valid(m) && TakesAll(m, ins)
  {
    ins == [] ||
    (AgreesThroughout(m, ins[..|ins| - 1]) && (ins[|ins| - 1].Press? ==> CountAgrees(InputRun(m, ins[..|ins| - 1]))))
  }

  /** Through such a run the machine is three consoles, each made by its own inputs alone. */
  lemma {:induction false} RunRefines(m: Machine, ins: seq<Input>)
    requires Valid(m) && TakesAll(m, ins) && AgreesThroughout(m, ins)
    ensures DeskOf(InputRun(m, ins)) == DeskRun(DeskOf(m), ins)
  {
    if ins != [] {
      var before := InputRun(m, ins[..|ins| - 1]);
      RunRefines(m, ins[..|ins| - 1]);
      InputRefines(before, ins[|ins| - 1]);
    }
  }

  /** The index of the line on screen and the count are the same. */
  predicate InStep(m: Machine) {
    m.idx == m.count
  }

  /** The input goes over to another terminal. */
  predicate Leaves(m: Machine, i: Input) {
    i.Press? && var a := ActionOf(FlagsAfter(m.flags, i.scan), m.count, i.scan); a.Switch? && a.target != m.onScreen
  }

  /** They stay the same unless a line is left for one of another length, or read before it is entered. */
  lemma InStepIsKeptExactly(m: Machine, i: Input)
    requires Valid(m) && Takes(m, i) && InStep(m)
    ensures InStep(InputStep(m, i)) <==>
            (Leaves(m, i) ==> m.saved[ActionOf(FlagsAfter(m.flags, i.scan), m.count, i.scan).target].idx == m.idx)
            && (i.Call? && i.ev.ReadLine? && i.ev.nbytes > 0 && m.kb[0] != NEWLINE ==> m.idx == 0)
  {
    hide PutcStep, EraseStep, PutsStep;
    if i.Call? && i.ev.Write? { WriteIsPuts(m, i.ev.buf); }
  }

  /** A line is entered before it is left and before it is read. */
  predicate TidyInput(d: Desk, i: Input)
    requires ValidDesk(d)
  {
    && ValidInput(d.flags, i)
    && match i {
         case Press(scan) => ActionOf(FlagsAfter(d.flags, scan), 0, scan).Switch? ==> d.consoles[d.onScreen].idx == 0
         case Call(ev) => ev.ReadLine? ==> d.consoles[d.onScreen].idx == 0
       }
  }

  /** No console but the one on screen has an unfinished line. */
  predicate TidyDesk(d: Desk)
    requires ValidDesk(d)
  {
    forall t :: 0 <= t < TERMINALS && t != d.onScreen ==> d.consoles[t].idx == 0
  }

  predicate TidyRun(d: Desk, ins: seq<Input>)
    requires ValidDesk(d)
  {
    ins == [] || (TidyRun(d, ins[..|ins| - 1]) && TidyInput(DeskRun(d, ins[..|ins| - 1]), ins[|ins| - 1]))
  }

  lemma DeskStaysTidy(d: Desk, i: Input)
    requires ValidDesk(d) && TidyDesk(d) && TidyInput(d, i) && ValidDesk(DeskStep(d, i))
    ensures TidyDesk(DeskStep(d, i))
  {
    hide Own;
  }

  lemma TidyKeepsInStep(m: Machine, i: Input)
    requires Valid(m) && InStep(m) && TidyDesk(DeskOf(m)) && TidyInput(DeskOf(m), i) && Takes(m, i)
    ensures InStep(InputStep(m, i))
  {
    hide InputStep;
    InStepIsKeptExactly(m, i);
    if Leaves(m, i) {
      var t := ActionOf(FlagsAfter(m.flags, i.scan), m.count, i.scan).target;
      assert DeskOf(m).consoles[t].idx == m.saved[t].idx;
    }
  }

  /**
   * From a machine without unfinished lines on other terminals, any run in which lines are entered before
   * they are left or read stays in the buffer and is the run of three consoles.
   */
  lemma {:induction false} TidyRunIsIndependent(m: Machine, ins: seq<Input>)
    requires Valid(m) && InStep(m) && TidyDesk(DeskOf(m)) && TidyRun(DeskOf(m), ins)
    ensures TakesAll(m, ins) && InStep(InputRun(m, ins)) && TidyDesk(DeskRun(DeskOf(m), ins))
    ensures DeskOf(InputRun(m, ins)) == DeskRun(DeskOf(m), ins)
  {
    hide InputStep, DeskStep, DeskOf, Takes, TidyInput, TidyDesk, Valid;
    if ins != [] {
      var rest, i := ins[..|ins| - 1], ins[|ins| - 1];
      TidyRunIsIndependent(m, rest);
      var before := InputRun(m, rest);
      TidyInputIsValid(before, i);
      InputRefines(before, i);
      TidyKeepsInStep(before, i);
      DeskStaysTidy(DeskOf(before), i);
    }
  }

  lemma TidyInputIsValid(m: Machine, i: Input)
    requires Valid(m) && TidyInput(DeskOf(m), i)
    ensures DeskOf(m).flags == m.flags && ValidInput(m.flags, i)
  {
  }
}
