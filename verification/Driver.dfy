/** The keyboard, terminal and scheduler code that updates the shared machine in place. */
module Driver {
  import opened Bytes
  import opened Console
  import opened Keyboard
  import opened Terminals
  import opened TerminalRuns

  /** What `terminals[t]` keeps besides its back page and its saved keyboard buffer. */
  datatype Control = Control(x: nat, y: nat, idx: nat, entered: bool, direct: bool)

  /** All buffers of the kernel are there, and no two are the same. */
  ghost predicate Distinct(video: array<Byte>, keyboardBuffer: array<Byte>,
                           pages: seq<array<Byte>>, lines: seq<array<Byte>>) {
    && |pages| == |lines| == TERMINALS
    && video != keyboardBuffer && video !in pages + lines && keyboardBuffer !in pages + lines
    && (forall i, j :: 0 <= i < j < TERMINALS ==> pages[i] != pages[j] && lines[i] != lines[j])
    && forall i, j :: 0 <= i < TERMINALS && 0 <= j < TERMINALS ==> pages[i] != lines[j]
  }

  class Machinery {
    const video: array<Byte>
    const keyboardBuffer: array<Byte>
    /** The back pages at `TERM0` to `TERM2`, and the `buf_kb` of the three terminals. */
    const pages: seq<array<Byte>>
    const lines: seq<array<Byte>>
    const terminals: array<Control>
    var screenX: nat
    var screenY: nat
    var kbIdx: nat
    var charCount: int
    var onScreen: nat
    var currTerminal: nat
    var flagKeys: Flags

    ghost predicate Apart() {
      Distinct(video, keyboardBuffer, pages, lines) && terminals.Length == TERMINALS
    }

    ghost function SavedAt(t: nat): Saved
      requires Apart() && t < TERMINALS
      reads terminals, pages, lines
    {
      var c := terminals[t];
      Saved(pages[t][..], c.x, c.y, lines[t][..], c.idx, c.entered, c.direct)
    }

    ghost function State(): Machine
      requires Apart()
      reads this, video, keyboardBuffer, terminals, pages, lines
    {
      Machine(video[..], screenX, screenY, keyboardBuffer[..], kbIdx, charCount,
              [SavedAt(0), SavedAt(1), SavedAt(2)], onScreen, currTerminal, flagKeys)
    }

    ghost predicate Valid()
      reads this, video, keyboardBuffer, terminals, pages, lines
    {
      Apart() && Shaped(State())
    }

    /** The machine over the kernel's static buffers, before anything is typed. */
    constructor (video: array<Byte>, keyboardBuffer: array<Byte>, pages: seq<array<Byte>>, lines: seq<array<Byte>>,
                 terminals: array<Control>)
      requires Distinct(video, keyboardBuffer, pages, lines) && terminals.Length == TERMINALS
      requires video.Length == PAGE && keyboardBuffer.Length == KB_SIZE
      requires forall t :: 0 <= t < TERMINALS ==>
        pages[t].Length == PAGE && lines[t].Length == KB_SIZE && terminals[t] == Control(0, 0, 0, false, false)
      ensures Valid() && State().idx == State().count == 0
      ensures forall t :: 0 <= t < TERMINALS ==> SavedAt(t).idx == 0
    {
      this.video, this.keyboardBuffer, this.pages, this.lines := video, keyboardBuffer, pages, lines;
      this.terminals := terminals;
      screenX, screenY, kbIdx, charCount, onScreen, currTerminal := 0, 0, 0, 0, 0, 0;
      flagKeys := Flags(false, false, false, false);
    }

    /** `putc`, which chooses the page. */
    method Putc(c: Byte, keypress: bool)
      requires Valid()
      modifies this`screenX, this`screenY, video, pages
      ensures Valid() && State() == PutTo(old(State()), c, keypress)
    {
      hide PutcStep;
      if onScreen == currTerminal || keypress || terminals[currTerminal].direct {
        screenX, screenY := Console.Putc(video, screenX, screenY, c);
      } else {
        screenX, screenY := Console.Putc(pages[currTerminal], screenX, screenY, c);
      }
    }

    /** `rm_c` during a key press. */
    method RmC()
      requires Valid()
      modifies this`screenX, this`screenY, video
      ensures Valid() && State() == RemoveStep(old(State()))
    {
      if keyboardBuffer[0] == NEWLINE || keyboardBuffer[0] == NUL { return; }
      screenX, screenY := Erase(video, screenX, screenY);
    }

    method TerminalWrite(buf: seq<Byte>) returns (count: nat)
      requires Valid()
      modifies this`screenX, this`screenY, video, pages
      ensures Valid() && count == |buf| && State() == WriteStep(old(State()), buf)
    {
      hide PutTo;
      count := 0;
      for i := 0 to |buf|
        invariant Valid() && count == i && State() == WriteStep(old(State()), buf[..i])
      {
        assert buf[..i + 1][..i] == buf[..i];
        Putc(buf[i], false);
        count := count + 1;
      }
      assert buf[..|buf|] == buf;
    }

    /** `memcpy` of a page or a buffer. */
    method MemCpy(dest: array<Byte>, src: array<Byte>)
      requires dest.Length == src.Length && dest != src
      modifies dest
      ensures dest[..] == src[..]
    {
      for i := 0 to src.Length
        invariant dest[..i] == src[..i]
      {
        dest[i] := src[i];
      }
      assert dest[..] == dest[..src.Length] && src[..src.Length] == src[..];
    }

    /** The cursor and the page of the terminal on screen are saved, and the page of the other one is shown. */
    method SwapPages(target: nat)
      requires Valid() && target < TERMINALS && target != onScreen
      modifies video, terminals, pages
      ensures var m := old(State());
              var out := m.saved[m.onScreen].(page := m.page, x := m.x % 256, y := m.y % 256, direct := false);
              Valid() && State() == m.(page := m.saved[target].page, saved := m.saved[m.onScreen := out])
    {
      terminals[onScreen] := terminals[onScreen].(x := screenX % 256, y := screenY % 256);
      MemCpy(pages[onScreen], video);
      terminals[onScreen] := terminals[onScreen].(direct := false);
      MemCpy(video, pages[target]);
    }

    /** The keyboard buffers are swapped likewise, and the index is saved. */
    method SwapLines(target: nat)
      requires Valid() && target < TERMINALS && target != onScreen
      modifies keyboardBuffer, terminals, lines
      ensures var m := old(State());
              var out := m.saved[m.onScreen].(kb := m.kb, idx := m.idx % 256);
              Valid() && State() == m.(kb := m.saved[target].kb, saved := m.saved[m.onScreen := out])
    {
      MemCpy(lines[onScreen], keyboardBuffer);
      MemCpy(keyboardBuffer, lines[target]);
      terminals[onScreen] := terminals[onScreen].(idx := kbIdx % 256);
    }

    method SwitchTerminalKeypress(target: nat)
      requires Valid()
      modifies this`screenX, this`screenY, this`kbIdx, this`onScreen, this`currTerminal
      modifies video, keyboardBuffer, terminals, pages, lines
      ensures Valid() && State() == SwitchStep(old(State()), target)
    {
      hide Apart, SavedAt;
      if target == onScreen || target >= TERMINALS { return; }
      SwapPages(target);
      SwapLines(target);
      SavedFields(target);
      kbIdx := terminals[target].idx;
      onScreen := target;
      screenX, screenY := terminals[target].x, terminals[target].y;
      currTerminal := target;
    }

    lemma SavedFields(t: nat)
      requires Apart() && t < TERMINALS
      ensures terminals.Length == TERMINALS
      ensures var c := terminals[t]; SavedAt(t).x == c.x && SavedAt(t).y == c.y && SavedAt(t).idx == c.idx
    {
    }

    /** `pit_handler` after boot. */
    method PitTick()
      requires Valid()
      modifies terminals
      ensures Valid() && State() == TickStep(old(State()))
    {
      terminals[currTerminal] := terminals[currTerminal].(x := screenX % 256, y := screenY % 256);
      terminals[currTerminal] := terminals[currTerminal].(direct := currTerminal == onScreen);
    }

    method TypeKey(c: Byte)
      requires Valid() && InBounds(State(), Type(c))
      modifies this`screenX, this`screenY, this`kbIdx, this`charCount, video, keyboardBuffer, pages
      ensures Valid() && State() == TypeStep(old(State()), c)
    {
      hide PutcStep;
      ghost var kb := keyboardBuffer[..];
      Putc(c, true);
      keyboardBuffer[kbIdx] := c;
      keyboardBuffer[kbIdx + 1] := NEWLINE;
      assert keyboardBuffer[..] == kb[kbIdx := c][kbIdx + 1 := NEWLINE];
      kbIdx := kbIdx + 1;
      charCount := charCount + 1;
    }

    method BackspaceKey()
      requires Valid() && kbIdx > 0
      modifies this`screenX, this`screenY, this`kbIdx, this`charCount, video, keyboardBuffer
      ensures Valid() && State() == BackspaceStep(old(State()))
    {
      hide EraseStep;
      ghost var kb := keyboardBuffer[..];
      RmC();
      kbIdx := kbIdx - 1;
      charCount := charCount - 1;
      keyboardBuffer[kbIdx] := NUL;
      assert keyboardBuffer[..] == kb[kbIdx := NUL];
    }

    method TabKey()
      requires Valid() && kbIdx < MAX_TYPED
      modifies this`screenX, this`screenY, this`kbIdx, this`charCount, video, keyboardBuffer, pages
      ensures Valid() && State() == TabStep(old(State()))
    {
      hide PutcStep;
      ghost var kb := keyboardBuffer[..];
      Putc(SPACE, true);
      keyboardBuffer[kbIdx] := SPACE;
      assert keyboardBuffer[..] == kb[kbIdx := SPACE];
      kbIdx := kbIdx + 1;
      charCount := charCount + 1;
    }

    method EnterKey()
      requires Valid()
      modifies this`screenX, this`screenY, this`kbIdx, this`charCount, video, terminals, pages
      ensures Valid() && State() == EnterStep(old(State()))
    {
      hide PutcStep;
      Putc(NEWLINE, true);
      terminals[onScreen] := terminals[onScreen].(entered := true);
      kbIdx := 0;
      charCount := 0;
    }

    /** The first part of `keyboard_handler`: shift, caps lock, control and alt. */
    method UpdateFlags(scan: nat)
      requires Valid()
      modifies this`flagKeys
      ensures Valid() && State() == old(State()).(flags := FlagsAfter(old(flagKeys), scan))
    {
      if scan == 0x2A || scan == 0x36 { flagKeys := flagKeys.(shift := true); }
      if scan == 0x3A { flagKeys := flagKeys.(caps := !flagKeys.caps); }
      if scan == 0x1D { flagKeys := flagKeys.(ctrl := true); }
      if scan == 0x38 { flagKeys := flagKeys.(alt := true); }
      if scan == 0xAA || scan == 0xB6 { flagKeys := flagKeys.(shift := false); }
      if scan == 0x9D { flagKeys := flagKeys.(ctrl := false); }
      if scan == 0xB8 { flagKeys := flagKeys.(alt := false); }
    }

    /**
     * `keyboard_handler`, for every scan code but F11, whose table entry does not exist, and the
     * screen clearing Ctrl+L.
     */
    method KeyboardHandler(scan: nat)
      requires Valid() && KeyInBounds(State(), scan) && Modelled(FlagsAfter(flagKeys, scan), scan)
      modifies this, video, keyboardBuffer, terminals, pages, lines
      ensures Valid() && State() == HandlerStep(old(State()), scan)
    {
      hide TypeStep, EnterStep, SwitchStep, PutTo, RemoveStep, KeyChar, SavedAt, Apart;
      UpdateFlags(scan);
      if charCount < MAX_TYPED && 0x01 < scan <= 0x44 {
        var keyChar := KeyChar(flagKeys.shift, flagKeys.caps, scan);
        if !IsSpecial(scan) && scan != BACKSPACE_CODE && scan != ENTER_CODE {
          TypeKey(keyChar);
          return;
        }
      }
      if scan == BACKSPACE_CODE && kbIdx > 0 { BackspaceKey(); }
      if scan == TAB_CODE && kbIdx < MAX_TYPED { TabKey(); }
      if scan == ENTER_CODE { EnterKey(); }
      if flagKeys.alt {
        if scan == 0x3B { SwitchTerminalKeypress(0); }
        else if scan == 0x3C { SwitchTerminalKeypress(1); }
        else if scan == 0x3D { SwitchTerminalKeypress(2); }
      }
    }

    /** The counting loop of `terminal_read`, which relies on a NUL in the buffer. */
    method CountLine() returns (count: nat)
      requires Valid() && NUL in keyboardBuffer[..]
      ensures count == |CString(keyboardBuffer[..], KB_SIZE)| < KB_SIZE
    {
      ghost var kb := keyboardBuffer[..];
      ghost var end :| 0 <= end < KB_SIZE && kb[end] == NUL;
      count := 0;
      while keyboardBuffer[count] != NUL
        invariant count <= end && NUL !in kb[..count]
        decreases end - count
      {
        count := count + 1;
      }
      CStringUnique(kb, KB_SIZE, count);
    }

    /** A buffer of the caller, outside the kernel's own. */
    ghost predicate Foreign(buf: array<Byte>) {
      buf != keyboardBuffer && buf != video && buf !in pages + lines
    }

    /** The `memcpy` of `terminal_read` into the caller's buffer. */
    method CopyLine(buf: array<Byte>, n: nat)
      requires Valid() && Foreign(buf) && n <= KB_SIZE && n <= buf.Length
      modifies buf
      ensures Valid() && State() == old(State()) && buf[..n] == keyboardBuffer[..n]
    {
      for i := 0 to n
        invariant buf[..i] == keyboardBuffer[..i]
      {
        buf[i] := keyboardBuffer[i];
      }
    }

    /** The `memset` of `terminal_read`. */
    method ClearLine()
      requires Valid()
      modifies keyboardBuffer
      ensures Valid() && State() == old(State()).(kb := seq(KB_SIZE, _ => NUL))
    {
      for i := 0 to KB_SIZE
        invariant forall k :: 0 <= k < i ==> keyboardBuffer[k] == NUL
      {
        keyboardBuffer[i] := NUL;
      }
      assert keyboardBuffer[..] == seq(KB_SIZE, _ => NUL);
    }

    /** `terminal_read` once enter has been pressed; it copies one byte more than it reports. */
    method TerminalRead(buf: array<Byte>, nbytes: nat) returns (howMany: nat)
      requires Valid() && NUL in keyboardBuffer[..] && Foreign(buf)
      requires buf.Length > LineLength(keyboardBuffer[..], nbytes)
      modifies this`kbIdx, keyboardBuffer, terminals, buf
      ensures Valid() && State() == ReadLineStep(old(State()), nbytes)
      ensures howMany == if old(keyboardBuffer[0]) == NEWLINE then 0 else LineLength(old(keyboardBuffer[..]), nbytes)
      ensures buf[..howMany] == old(keyboardBuffer[..])[..howMany]
    {
      hide SavedAt, Apart, Shaped;
      howMany := 0;
      if nbytes == 0 { return; }
      if keyboardBuffer[0] == NEWLINE { return; }
      ghost var kb := keyboardBuffer[..];
      var count := CountLine();
      howMany := if count > nbytes then nbytes else count;
      CopyLine(buf, howMany + 1);
      assert buf[..howMany] == buf[..howMany + 1][..howMany] == kb[..howMany + 1][..howMany] == kb[..howMany];
      ClearLine();
      LineTaken();
    }

    method LineTaken()
      requires Valid()
      modifies this`kbIdx, terminals
      ensures var m := old(State());
              Valid() && State() == m.(idx := 0, saved := m.saved[m.onScreen := m.saved[m.onScreen].(entered := false)])
    {
      terminals[onScreen] := terminals[onScreen].(entered := false);
      kbIdx := 0;
    }
  }
}
