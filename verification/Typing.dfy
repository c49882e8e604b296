/** From scancodes to the shell: interrupts and polls in any order. */
module Typing {
  import opened CStrings
  import opened Console
  import opened LineEditor
  import opened KeyboardDriver
  import opened Keystrokes
  import opened ShellCommands
  import opened FrodFs

  /** The controller raises an interrupt with a byte, or the shell asks for a key. */
  datatype Event = Interrupt(sc: Scancode) | Poll

  function Scancodes(events: seq<Event>): seq<Scancode>
  {
    if events == [] then []
    else
      var e := events[|events| - 1];
      Scancodes(events[..|events| - 1]) + (if e.Interrupt? then [e.sc] else [])
  }

  lemma ScancodesStep(events: seq<Event>, e: Event)
    ensures Scancodes(events + [e]) == Scancodes(events) + (if e.Interrupt? then [e.sc] else [])
  {
    assert (events + [e])[..|events|] == events;
  }

  /** One more key at the end of a stream. */
  lemma KeysAppend(s: Session, keys: seq<char>, c: char, color: Color)
    ensures s.Keys(keys + [c], color) == s.Keys(keys, color).Key(c, color)
  {
    hide Session.Key;
    KeysConcat(s, keys, [c], color);
    var t := s.Keys(keys, color);
    assert [c][1..] == [];
    assert t.Keys([c], color) == t.Key(c, color).Keys([], color);
  }

  /** `a` is what is left of `b` when some of its keys are struck out. */
  ghost predicate LeftFrom(a: seq<char>, b: seq<char>)
    decreases |b|
  {
    a == [] ||
    (b != [] && var rest := b[..|b| - 1];
     LeftFrom(a, rest) || (a[|a| - 1] == b[|b| - 1] && LeftFrom(a[..|a| - 1], rest)))
  }

  lemma LeftFromStep(a: seq<char>, b: seq<char>, c: char)
    requires LeftFrom(a, b)
    ensures LeftFrom(a, b + [c]) && LeftFrom(a + [c], b + [c])
  {
    assert (b + [c])[..|b|] == b;
    assert (a + [c])[..|a|] == a;
  }

  /** Keys delivered and queued are keys offered so far, in order; all of them unless one found the ring full. */
  ghost predicate InOrder(delivered: seq<char>, queue: seq<char>, stream: seq<Scancode>, full: bool)
  {
    && LeftFrom(delivered + queue, Offered(stream))
    && |delivered| + |queue| <= |Offered(stream)|
    && (!full ==> delivered + queue == Offered(stream))
    && (full ==> |Offered(stream)| > 255)
  }

  lemma OfferedOne(delivered: seq<char>, queue: seq<char>, s: seq<Scancode>, sc: Scancode, full: bool)
    requires InOrder(delivered, queue, s, full)
    ensures var c := Decode(DecoderAfter(s), sc).1;
            var more := if c != NUL && |queue| < 255 then queue + [c] else queue;
            InOrder(delivered, more, s + [sc], full || (c != NUL && |queue| >= 255))
  {
    hide Offered, Decode, DecoderAfter, LeftFrom;
    StreamStep(s, sc);
    var c := Decode(DecoderAfter(s), sc).1;
    LeftFromStep(delivered + queue, Offered(s), c);
    assert Offered(s + [sc]) == if c == NUL then Offered(s) else Offered(s) + [c];
    assert delivered + (queue + [c]) == delivered + queue + [c];
  }

  /**
   * However interrupts and polls interleave, the session is that of the delivered keys. These are keys the
   * decoder offered, in its order; with the queue they are all of them unless more than 255 were offered.
   */
  method Run(keyboard: Keyboard, shell: Shell, events: seq<Event>)
    returns (ghost delivered: seq<char>, ghost full: bool)
    requires keyboard.Valid() && keyboard.State() == AT_BOOT && keyboard.Queue() == []
    requires shell.Valid()
    requires keyboard.keyBuffer != shell.buf && keyboard.keyBuffer != shell.ioBuffer
    modifies keyboard, keyboard.keyBuffer
    modifies shell`len, shell`running, shell.buf, shell.ioBuffer, shell.bytesRead, shell.fs.storage
    modifies shell.screen`vgaCursor, shell.screen`log, shell.screen.vgaBuffer
    ensures keyboard.Valid() && shell.Valid()
    ensures shell.State() == old(shell.State()).Keys(delivered, shell.screen.charColor)
    ensures InOrder(delivered, keyboard.Queue(), Scancodes(events), full)
  {
    hide Offered, DecoderAfter, Decode, Session.Key, QueueOf, Shell.Valid, Shell.State;
    delivered, full := [], false;
    NothingDecoded();
    for i := 0 to |events|
      invariant keyboard.Valid() && shell.Valid()
      invariant keyboard.State() == DecoderAfter(Scancodes(events[..i]))
      invariant shell.State() == old(shell.State()).Keys(delivered, shell.screen.charColor)
      invariant InOrder(delivered, keyboard.Queue(), Scancodes(events[..i]), full)
      invariant NUL !in keyboard.Queue()
    {
      assert events[..i + 1] == events[..i] + [events[i]];
      ScancodesStep(events[..i], events[i]);
      ghost var queue := keyboard.Queue();
      match events[i] {
        case Interrupt(sc) =>
          ghost var s := Scancodes(events[..i]);
          StreamStep(s, sc);
          OfferedOne(delivered, queue, s, sc, full);
          full := full || (Decode(DecoderAfter(s), sc).1 != NUL && |queue| >= 255);
          keyboard.Handle(sc);
        case Poll =>
          assert Scancodes(events[..i + 1]) == Scancodes(events[..i]);
          var c := keyboard.GetChar();
          if c != NUL {
            shell.HandleKey(c);
            KeysAppend(old(shell.State()), delivered, c, shell.screen.charColor);
            assert delivered + queue == delivered + [c] + queue[1..];
            delivered := delivered + [c];
          }
      }
    }
    assert events[..|events|] == events;
  }

  // ---------- from the keys pressed ----------

  /** Whenever the strokes of a text of at most 255 characters arrive: they are delivered or queued, in order. */
  lemma StrokesArriveInOrder(text: string, delivered: seq<char>, queue: seq<char>, full: bool)
    requires (forall c | c in text :: OnKeyboard(c)) && |text| <= 255
    requires InOrder(delivered, queue, Strokes(text, false, 0x2A), full)
    ensures delivered + queue == text
  {
    hide Offered, Strokes, OnKeyboard, LeftFrom;
    TypedTextIsOffered(text);
  }

  /** One stroke puts its character in the queue and leaves the decoder as it was. */
  method PressKey(keyboard: Keyboard, c: char)
    requires keyboard.Valid() && keyboard.State() == AT_BOOT && keyboard.Queue() == []
    requires OnKeyboard(c)
    modifies keyboard`keyHead, keyboard`shiftDown, keyboard`capsOn, keyboard`extPrefix, keyboard.keyBuffer
    ensures keyboard.Valid() && keyboard.State() == AT_BOOT && keyboard.Queue() == [c]
  {
    hide Offered, DecoderAfter, OnKeyboard, Stroke, QueueOf, CapsPresses, ShiftHeld;
    var stroke := Stroke(c, false, 0x2A);
    NothingDecoded();
    NulHasNoKey(c);
    StrokeGives([], c, false, 0x2A);
    assert [] + stroke == stroke;
    keyboard.HandleAll(stroke);
    DecoderFollowsStream(stroke);
    assert [] + [c] == [c];
  }

  /** A text typed at any length, the shell reading as it goes: the session is that of the text. */
  method TypeText(keyboard: Keyboard, shell: Shell, text: string)
    requires keyboard.Valid() && keyboard.State() == AT_BOOT && keyboard.Queue() == []
    requires shell.Valid() && forall c | c in text :: OnKeyboard(c)
    requires keyboard.keyBuffer != shell.buf && keyboard.keyBuffer != shell.ioBuffer
    modifies keyboard, keyboard.keyBuffer
    modifies shell`len, shell`running, shell.buf, shell.ioBuffer, shell.bytesRead, shell.fs.storage
    modifies shell.screen`vgaCursor, shell.screen`log, shell.screen.vgaBuffer
    ensures keyboard.Valid() && keyboard.State() == AT_BOOT && keyboard.Queue() == []
    ensures shell.Valid() && shell.State() == old(shell.State()).Keys(text, shell.screen.charColor)
  {
    hide OnKeyboard, Session.Key, QueueOf, Shell.Valid, Shell.State;
    for i := 0 to |text|
      invariant keyboard.Valid() && keyboard.State() == AT_BOOT && keyboard.Queue() == []
      invariant shell.Valid() && shell.State() == old(shell.State()).Keys(text[..i], shell.screen.charColor)
    {
      PressKey(keyboard, text[i]);
      var c := keyboard.GetChar();
      shell.HandleKey(c);
      KeysAppend(old(shell.State()), text[..i], c, shell.screen.charColor);
      assert text[..i + 1] == text[..i] + [c];
    }
    assert text[..|text|] == text;
  }

  /** The three commands by their keys: the file holds the text, and the shell is back at an empty prompt. */
  method TypeFile(keyboard: Keyboard, shell: Shell, name: string, text: string)
    requires keyboard.Valid() && keyboard.State() == AT_BOOT && keyboard.Queue() == []
    requires shell.Valid() && shell.running && shell.len == 0
    requires keyboard.keyBuffer != shell.buf && keyboard.keyBuffer != shell.ioBuffer
    requires |shell.fs.Files()| < FS_MAX_FILES && forall f | f in shell.fs.Files() :: f.name != name
    requires SimpleName(name) && SimpleText(text) && |name| + |text| < 249
    requires forall c | c in name + text :: OnKeyboard(c)
    modifies keyboard, keyboard.keyBuffer
    modifies shell`len, shell`running, shell.buf, shell.ioBuffer, shell.bytesRead, shell.fs.storage
    modifies shell.screen`vgaCursor, shell.screen`log, shell.screen.vgaBuffer
    ensures shell.Valid() && shell.running && shell.len == 0
    ensures shell.fs.Files() == old(shell.fs.Files()) + [File(name, text)]
  {
    hide OnKeyboard, SimpleName, SimpleText, Session.Keys, QueueOf, FileTable.Valid, FileTable.Files;
    ghost var s := shell.State();
    FindIs(s.files, name, |s.files|);
    LinesOnKeyboard(name, text);
    TypedRoundTrip(s, name, text, shell.screen.charColor);
    TypeText(keyboard, shell, ThreeLines(name, text));
    assert shell.State().line == "";
  }

  lemma LinesOnKeyboard(name: string, text: string)
    requires forall c | c in name + text :: OnKeyboard(c)
    ensures forall c | c in ThreeLines(name, text) :: OnKeyboard(c)
    ensures |WriteLine(name, text)| == |name| + |text| + 7
  {
    CommandsOnKeyboard();
    assert forall c | c in name :: c in name + text;
    assert forall c | c in text :: c in name + text;
    hide OnKeyboard;
  }

  lemma CommandsOnKeyboard()
    ensures OnKeyboard(' ') && OnKeyboard('\n')
    ensures forall c | c in "touch " :: OnKeyboard(c)
    ensures forall c | c in "write " :: OnKeyboard(c)
    ensures forall c | c in "cat " :: OnKeyboard(c)
  {}
}
