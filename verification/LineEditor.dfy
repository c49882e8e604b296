/** The shell's line editor and command loop, on the screen and the file table. */
module LineEditor {
  import opened Words
  import opened CStrings
  import opened Console
  import opened FrodFs
  import opened ShellCommands

  const PROMPT := "FrodOS $ "

  const BANNER_RULE := "========================================\n"
  const BANNER_TEXT := "         Welcome to FrodOS Userland!      \n"

  /** The screen at the first prompt. */
  function Welcome(color: Color): Log
  {
    Cleared(color).Print(BANNER_RULE, color).Print(BANNER_TEXT, color).Print(BANNER_RULE + "\n", color)
      .Print(PROMPT, color)
  }

  /** What one `sys_read_char` result does to the session; NUL is "no key yet". */
  datatype Session = Session(files: seq<File>, line: string, log: Log, running: bool)
  {
    function Key(c: char, color: Color): Session
    {
      if !running || c == NUL then this
      else if c == '\n' || c == '\r' then Enter(color)
      else if c == BACKSPACE then
        if line == "" then this
        else this.(line := line[..|line| - 1], log := log.Print([BACKSPACE, ' ', BACKSPACE], color))
      else if |line| < CMD_MAX - 1 then this.(line := line + [c], log := log.Print([c], color))
      else this
    }

    function Enter(color: Color): Session
    {
      var below := log.Print("\n", color);
      if line == "" then this.(log := below.Print(PROMPT, color))
      else
        var (after, output) := Command(files, line);
        if output.ProgramStarted? then Session(after, line, below, false)
        else Session(after, "", Show(below, output, color).Print("\n", color).Print(PROMPT, color), true)
    }

    function Keys(keys: seq<char>, color: Color): Session
      decreases |keys|
    {
      if keys == [] then this else Key(keys[0], color).Keys(keys[1..], color)
    }
  }

  function Show(log: Log, output: Output, color: Color): Log
  {
    match output
    case Said(m) => log.Print(Wording(m), color)
    case Printed(text) => log.Print(text, color)
    case ScreenCleared => Cleared(color)
    case ProgramStarted => log
  }

  // ---------- the line ----------

  predicate Edits(c: char)
  {
    c != '\n' && c != '\r'
  }

  /** The line after one more editing key: backspace takes one away, and keys past 255 are dropped. */
  function Edited(line: string, c: char): string
  {
    if c == NUL then line
    else if c == BACKSPACE then if line == "" then line else line[..|line| - 1]
    else if |line| < CMD_MAX - 1 then line + [c]
    else line
  }

  function Typed(line: string, keys: seq<char>): string
    decreases |keys|
  {
    if keys == [] then line else Typed(Edited(line, keys[0]), keys[1..])
  }

  // ---------- echo ----------

  /**
   * The screen agrees with the line: since the prompt (whose log is `prompt`) exactly the line's characters
   * have been added in front of the cursor, all of them still inside the window, and nothing before them changed.
   */
  ghost predicate EchoAgrees(s: Session, prompt: Log, color: Color)
  {
    && s.log.Valid() && BlankAhead(s.log, color)
    && |s.line| < CMD_MAX
    && s.log.pos == prompt.pos + |s.line| && s.log.base <= prompt.pos
    && prompt.pos <= |prompt.cells| && s.log.pos <= |s.log.cells|
    && Shows(s.log.cells[prompt.pos..s.log.pos], s.line, color)
    && s.log.cells[..prompt.pos] == prompt.cells[..prompt.pos]
    && (forall c | c in s.line :: Plain(c))
  }

  lemma PrintOne(l: Log, c: char, color: Color)
    ensures l.Print([c], color) == l.Put(c, color)
  {
    assert [c][1..] == [];
    assert l.Put(c, color).Print([], color) == l.Put(c, color);
  }

  lemma EchoOfCharacter(s: Session, prompt: Log, c: char, color: Color)
    requires EchoAgrees(s, prompt, color) && s.running
    requires Plain(c) && c != '\r' && |s.line| < CMD_MAX - 1
    ensures EchoAgrees(s.Key(c, color), prompt, color)
  {
    PrintOne(s.log, c, color);
    PutPlain(s.log, c, color);
    PutKeepsBlankAhead(s.log, c, color);
    var m := s.log.Put(c, color);
    assert m.cells[..prompt.pos] == m.cells[..s.log.pos][..prompt.pos];
    assert m.cells[prompt.pos..s.log.pos] == m.cells[..s.log.pos][prompt.pos..];
    assert m.cells[prompt.pos..m.pos] == m.cells[prompt.pos..s.log.pos] + [m.cells[s.log.pos]];
    ShowsConcat(m.cells[prompt.pos..s.log.pos], [m.cells[s.log.pos]], s.line, [c], color);
  }

  lemma EchoOfBackspace(s: Session, prompt: Log, color: Color)
    requires EchoAgrees(s, prompt, color) && s.running && s.line != ""
    ensures EchoAgrees(s.Key(BACKSPACE, color), prompt, color)
  {
    RubOutIsBackspace(s.log, color);
    PrintOne(s.log, BACKSPACE, color);
    PutKeepsValid(s.log, BACKSPACE, color);
    PutKeepsBlankAhead(s.log, BACKSPACE, color);
    PutBackspace(s.log, color);
    var m := s.log.Put(BACKSPACE, color);
    hide Shows, Log.Put;
    assert m.cells[..prompt.pos] == m.cells[..m.pos][..prompt.pos];
    assert m.cells[prompt.pos..m.pos] == m.cells[..m.pos][prompt.pos..];
    assert s.log.cells[prompt.pos..s.log.pos][..|s.line| - 1] == s.log.cells[..m.pos][prompt.pos..];
    HeadShows(s.log.cells[prompt.pos..s.log.pos], s.line, |s.line| - 1, color);
  }

  lemma EchoOfKey(s: Session, prompt: Log, c: char, color: Color)
    requires EchoAgrees(s, prompt, color) && s.running && Edits(c)
    ensures EchoAgrees(s.Key(c, color), prompt, color)
    ensures s.Key(c, color).line == Edited(s.line, c)
    ensures s.Key(c, color).files == s.files && s.Key(c, color).running
  {
    if c == BACKSPACE {
      if s.line != "" {
        EchoOfBackspace(s, prompt, color);
      }
    } else if c != NUL && |s.line| < CMD_MAX - 1 {
      EchoOfCharacter(s, prompt, c, color);
    }
  }

  /**
   * From any prompt, for every stream of editing keys, wrapped lines and scrolling included: the line is the
   * fold of the keys, and the screen agrees with it.
   */
  lemma {:induction false} EchoAgreesWithBuffer(s: Session, prompt: Log, keys: seq<char>, color: Color)
    requires EchoAgrees(s, prompt, color) && s.running
    requires forall c | c in keys :: Edits(c)
    ensures EchoAgrees(s.Keys(keys, color), prompt, color)
    ensures s.Keys(keys, color).line == Typed(s.line, keys)
    ensures s.Keys(keys, color).files == s.files && s.Keys(keys, color).running
    decreases |keys|
  {
    if keys != [] {
      hide Session.Key, EchoAgrees;
      assert keys[0] in keys;
      EchoOfKey(s, prompt, keys[0], color);
      EchoAgreesWithBuffer(s.Key(keys[0], color), prompt, keys[1..], color);
    }
  }

  /** A prompt starts such a line. */
  lemma PromptAgrees(s: Session, color: Color)
    requires s.log.Valid() && BlankAhead(s.log, color) && s.line == ""
    ensures EchoAgrees(s, s.log, color)
  {}

  lemma {:induction false} PrintKeepsBlankAhead(l: Log, s: string, color: Color)
    requires l.Valid() && BlankAhead(l, color)
    ensures l.Print(s, color).Valid() && BlankAhead(l.Print(s, color), color)
    decreases |s|
  {
    if s != [] {
      PutKeepsValid(l, s[0], color);
      PutKeepsBlankAhead(l, s[0], color);
      PrintKeepsBlankAhead(l.Put(s[0], color), s[1..], color);
    }
  }

  /** The screen every session lives on: whatever is typed and run, it stays a window with blanks ahead. */
  lemma KeyKeepsScreen(s: Session, c: char, color: Color)
    requires s.log.Valid() && BlankAhead(s.log, color)
    ensures s.Key(c, color).log.Valid() && BlankAhead(s.Key(c, color).log, color)
  {
    hide Log.Print, Log.Valid, BlankAhead, Command, Wording;
    PrintKeepsBlankAhead(s.log, [BACKSPACE, ' ', BACKSPACE], color);
    PrintKeepsBlankAhead(s.log, [c], color);
    var below := s.log.Print("\n", color);
    PrintKeepsBlankAhead(s.log, "\n", color);
    PrintKeepsBlankAhead(below, PROMPT, color);
    var output := Command(s.files, s.line).1;
    var shown := Show(below, output, color);
    match output {
      case Said(m) => PrintKeepsBlankAhead(below, Wording(m), color);
      case Printed(text) => PrintKeepsBlankAhead(below, text, color);
      case ScreenCleared => ClearedIsBlank(color);
      case ProgramStarted =>
    }
    PrintKeepsBlankAhead(shown, "\n", color);
    PrintKeepsBlankAhead(shown.Print("\n", color), PROMPT, color);
  }

  lemma ClearedIsBlank(color: Color)
    ensures Cleared(color).Valid() && BlankAhead(Cleared(color), color)
  {}

  /** The first prompt is such a screen. */
  lemma WelcomeIsBlankAhead(color: Color)
    ensures Welcome(color).Valid() && BlankAhead(Welcome(color), color)
  {
    hide Log.Print, Log.Valid, BlankAhead;
    ClearedIsBlank(color);
    var l1 := Cleared(color).Print(BANNER_RULE, color);
    var l2 := l1.Print(BANNER_TEXT, color);
    PrintKeepsBlankAhead(Cleared(color), BANNER_RULE, color);
    PrintKeepsBlankAhead(l1, BANNER_TEXT, color);
    PrintKeepsBlankAhead(l2, BANNER_RULE + "\n", color);
    PrintKeepsBlankAhead(l2.Print(BANNER_RULE + "\n", color), PROMPT, color);
  }

  /** Over every run of the shell from its first prompt, commands included, the screen stays such a window. */
  lemma {:induction false} EverySessionKeepsScreen(s: Session, keys: seq<char>, color: Color)
    requires s.log.Valid() && BlankAhead(s.log, color)
    ensures s.Keys(keys, color).log.Valid() && BlankAhead(s.Keys(keys, color).log, color)
    decreases |keys|
  {
    if keys != [] {
      hide Session.Key;
      KeyKeepsScreen(s, keys[0], color);
      EverySessionKeepsScreen(s.Key(keys[0], color), keys[1..], color);
    }
  }

  /**
   * So from any such screen: whatever was typed and run before, at every later prompt and for every stream
   * of editing keys typed there, the line is the fold of the keys and the screen agrees with it.
   */
  lemma EchoAgreesInEveryRun(start: Session, history: seq<char>, keys: seq<char>, color: Color)
    requires start.log.Valid() && BlankAhead(start.log, color)
    requires start.Keys(history, color).running && start.Keys(history, color).line == ""
    requires forall c | c in keys :: Edits(c)
    ensures var s := start.Keys(history, color);
            && EchoAgrees(s.Keys(keys, color), s.log, color)
            && s.Keys(keys, color).line == Typed("", keys)
  {
    hide Session.Key;
    EverySessionKeepsScreen(start, history, color);
    var s := start.Keys(history, color);
    PromptAgrees(s, color);
    EchoAgreesWithBuffer(s, s.log, keys, color);
  }

  /** The session at the first prompt. */
  function FirstPrompt(files: seq<File>, color: Color): Session
  {
    Session(files, "", Welcome(color), true)
  }

  /** In particular over every run from the first prompt on, whatever files boot left. */
  lemma EchoAgreesFromFirstPrompt(files: seq<File>, history: seq<char>, keys: seq<char>, color: Color)
    requires forall c | c in keys :: Edits(c)
    ensures var s := FirstPrompt(files, color).Keys(history, color);
            s.running && s.line == "" ==>
              && EchoAgrees(s.Keys(keys, color), s.log, color)
              && s.Keys(keys, color).line == Typed("", keys)
  {
    hide Session.Keys, Session.Key, EchoAgrees, Typed, BlankAhead, Welcome;
    WelcomeIsBlankAhead(color);
    var start := FirstPrompt(files, color);
    if start.Keys(history, color).running && start.Keys(history, color).line == "" {
      EchoAgreesInEveryRun(start, history, keys, color);
    }
  }

  // ---------- typing whole commands ----------

  lemma {:induction false} KeysConcat(s: Session, a: seq<char>, b: seq<char>, color: Color)
    ensures s.Keys(a + b, color) == s.Keys(a, color).Keys(b, color)
    decreases |a|
  {
    if a == [] {
      assert a + b == b;
    } else {
      hide Session.Key;
      assert (a + b)[1..] == a[1..] + b;
      KeysConcat(s.Key(a[0], color), a[1..], b, color);
    }
  }

  /** Typing a text of at most 255 plain characters puts it in the line and on the screen. */
  lemma {:induction false} TypeText(s: Session, text: string, color: Color)
    requires s.running && OneLine(text) && |s.line| + |text| < CMD_MAX
    ensures s.Keys(text, color) == s.(line := s.line + text, log := s.log.Print(text, color))
    decreases |text|
  {
    if text == [] {
      assert s.line + text == s.line;
    } else {
      var c := text[0];
      assert c in text;
      PrintOne(s.log, c, color);
      var next := s.Key(c, color);
      TypeText(next, text[1..], color);
      assert next.line + text[1..] == s.line + text;
    }
  }

  /** The session after a command was typed at an empty line and run. */
  function AfterCommand(s: Session, line: string, color: Color): Session
  {
    s.(line := line, log := s.log.Print(line, color)).Enter(color)
  }

  lemma TypeCommand(s: Session, line: string, color: Color)
    requires s.running && s.line == "" && OneLine(line) && |line| < CMD_MAX
    ensures s.Keys(line + ['\n'], color) == AfterCommand(s, line, color)
  {
    hide Session.Enter;
    TypeText(s, line, color);
    KeysConcat(s, line, ['\n'], color);
    var t := s.(line := line, log := s.log.Print(line, color));
    assert "" + line == line;
    assert ['\n'][1..] == [];
    assert t.Keys(['\n'], color) == t.Key('\n', color).Keys([], color);
  }

  function ThreeLines(name: string, text: string): seq<char>
  {
    (TouchLine(name) + ['\n']) + ((WriteLine(name, text) + ['\n']) + (CatLine(name) + ['\n']))
  }

  /**
   * Typed at the prompt: touch, write, cat. The file holds the text, no other file changed, and the last
   * output is the text and a newline, before the blank line and the new prompt.
   */
  lemma TypedRoundTrip(s: Session, name: string, text: string, color: Color)
    requires s.running && s.line == "" && |s.files| < FS_MAX_FILES && Find(s.files, name) == |s.files|
    requires SimpleName(name) && SimpleText(text) && |WriteLine(name, text)| < CMD_MAX
    ensures var s1 := AfterCommand(s, TouchLine(name), color);
            var s2 := AfterCommand(s1, WriteLine(name, text), color);
            var s3 := s.Keys(ThreeLines(name, text), color);
            && s3.files == s.files + [File(name, text)]
            && s3.line == "" && s3.running
            && s3.log == s2.log.Print(CatLine(name), color).Print("\n", color).Print(text + ['\n'], color)
                           .Print("\n", color).Print(PROMPT, color)
  {
    hide Log.Print, Wording, Command, Session.Keys, OneLine;
    TouchWriteCat(s.files, name, text);
    LinesAreTypable(name, text);
    var s1 := AfterCommand(s, TouchLine(name), color);
    var s2 := AfterCommand(s1, WriteLine(name, text), color);
    var a, b, c := TouchLine(name) + ['\n'], WriteLine(name, text) + ['\n'], CatLine(name) + ['\n'];
    KeysConcat(s, a, b + c, color);
    TypeCommand(s, TouchLine(name), color);
    KeysConcat(s1, b, c, color);
    TypeCommand(s1, WriteLine(name, text), color);
    TypeCommand(s2, CatLine(name), color);
  }

  lemma LinesAreTypable(name: string, text: string)
    requires SimpleName(name) && SimpleText(text)
    ensures OneLine(TouchLine(name)) && OneLine(WriteLine(name, text)) && OneLine(CatLine(name))
    ensures |TouchLine(name)| < CMD_MAX && |CatLine(name)| < CMD_MAX && |TouchLine(name)| > 0
    ensures |WriteLine(name, text)| > 0 && |CatLine(name)| > 0 && |text| < |WriteLine(name, text)|
  {}

  // ---------- shell.c ----------

  lemma SkipSpacesStep(t: string, q: nat)
    requires q <= |t|
    ensures SkipSpaces(t[q..]) == if q < |t| && t[q] == ' ' then SkipSpaces(t[q + 1..]) else t[q..]
  {
    if q < |t| {
      assert t[q..][0] == t[q] && t[q..][1..] == t[q + 1..];
    }
  }

  lemma UpToSpaceStep(t: string, p: nat, q: nat)
    requires p <= q <= |t|
    ensures t[p..q] + UpToSpace(t[q..]) ==
            if q == |t| || t[q] == ' ' then t[p..q] else t[p..q + 1] + UpToSpace(t[q + 1..])
  {
    if q < |t| {
      assert t[q..][0] == t[q] && t[q..][1..] == t[q + 1..];
      assert t[p..q + 1] == t[p..q] + [t[q]];
    }
  }

  lemma CutLineStep(t: string, q: nat)
    requires q <= |t|
    ensures t[..q] + CutLine(t[q..]) ==
            if q == |t| || t[q] == '\r' || t[q] == '\n' then t[..q] else t[..q + 1] + CutLine(t[q + 1..])
  {
    if q < |t| {
      assert t[q..][0] == t[q] && t[q..][1..] == t[q + 1..];
      assert t[..q + 1] == t[..q] + [t[q]];
    }
  }

  /** The `while (*p == ' ') p++` loop. */
  method SkipBlanks(s: seq<char>, p: nat) returns (q: nat)
    requires IsCString(s) && p <= |Text(s)|
    ensures p <= q <= |Text(s)| && Text(s)[q..] == SkipSpaces(Text(s)[p..])
  {
    hide Text, SkipSpaces;
    ghost var t := Text(s);
    q := p;
    while s[q] == ' '
      invariant p <= q <= |t| && SkipSpaces(t[q..]) == SkipSpaces(t[p..])
      decreases |t| - q
    {
      SkipSpacesStep(t, q);
      q := q + 1;
    }
    SkipSpacesStep(t, q);
  }

  /** The `while (*p != '\0' && *p != ' ') p++` loop. */
  method SkipWord(s: seq<char>, p: nat) returns (q: nat)
    requires IsCString(s) && p <= |Text(s)|
    ensures p <= q <= |Text(s)| && Text(s)[p..q] == UpToSpace(Text(s)[p..])
    ensures s[q] == NUL || s[q] == ' '
  {
    hide Text, UpToSpace;
    ghost var t := Text(s);
    q := p;
    assert t[p..p] + UpToSpace(t[p..]) == UpToSpace(t[p..]);
    while s[q] != NUL && s[q] != ' '
      invariant p <= q <= |t| && t[p..q] + UpToSpace(t[q..]) == UpToSpace(t[p..])
      decreases |t| - q
    {
      UpToSpaceStep(t, p, q);
      q := q + 1;
    }
    UpToSpaceStep(t, p, q);
  }

  class Shell {
    const screen: Screen
    const fs: FileTable
    const buf: array<char>
    const ioBuffer: array<char>
    const bytesRead: array<Word>
    var len: nat
    var running: bool

    /** The parts are in order, whatever the command buffer holds. */
    ghost predicate Ready()
      reads this, screen, screen.vgaBuffer, fs, fs.storage
    {
      screen.Valid() && Loaded()
    }

    /** So they are when main is entered, whatever the screen shows. */
    ghost predicate Loaded()
      reads this, screen, fs, fs.storage
    {
      && screen.vgaBuffer.Length == SCREEN && fs.Valid()
      && buf.Length == CMD_MAX && ioBuffer.Length == IO_MAX && buf != ioBuffer && bytesRead.Length == 1
    }

    ghost predicate Valid()
      reads this, screen, screen.vgaBuffer, fs, fs.storage, buf
    {
      Ready() && len < CMD_MAX && NUL !in buf[..len] && '\n' !in buf[..len] && '\r' !in buf[..len]
    }

    ghost function State(): Session
      requires Valid()
      reads this, screen, screen.vgaBuffer, fs, fs.storage, buf
    {
      Session(fs.Files(), buf[..len], screen.log, running)
    }

    constructor (screen: Screen, fs: FileTable)
      requires screen.vgaBuffer.Length == SCREEN && fs.Valid()
      ensures Loaded() && this.screen == screen && this.fs == fs
      ensures fresh(buf) && fresh(ioBuffer) && fresh(bytesRead)
    {
      this.screen, this.fs := screen, fs;
      buf := new char[CMD_MAX](_ => NUL);
      ioBuffer := new char[IO_MAX](_ => NUL);
      bytesRead := new Word[1](_ => 0);
      len, running := 0, true;
    }

    /** `sys_print` of one of the fixed texts. */
    method Say(m: Message)
      requires screen.Valid()
      modifies screen`vgaCursor, screen`log, screen.vgaBuffer
      ensures screen.Valid() && screen.log == Show(old(screen.log), Said(m), screen.charColor)
    {
      hide Wording, Log.Print;
      screen.KPrintText(Wording(m));
    }

    /** What main does before its loop, on whatever the boot messages left on the screen. */
    method Start()
      requires Loaded()
      modifies this`len, this`running, screen`vgaCursor, screen`log, screen.vgaBuffer
      ensures Valid() && State() == FirstPrompt(old(fs.Files()), screen.charColor)
    {
      hide Log.Print, Screen.Valid, FileTable.Valid, FileTable.Files;
      len, running := 0, true;
      screen.KClear();
      screen.KPrintText(BANNER_RULE);
      screen.KPrintText(BANNER_TEXT);
      screen.KPrintText(BANNER_RULE + "\n");
      screen.KPrintText(PROMPT);
      assert buf[..0] == "";
    }

    /** main's loop for as many results of sys_read_char as there are. */
    method Loop(keys: seq<char>)
      requires Valid()
      modifies this`len, this`running, buf, ioBuffer, bytesRead, fs.storage
      modifies screen`vgaCursor, screen`log, screen.vgaBuffer
      ensures Valid() && State() == old(State()).Keys(keys, screen.charColor)
    {
      hide Session.Key, Valid, State;
      for i := 0 to |keys|
        invariant Valid()
        invariant State().Keys(keys[i..], screen.charColor) == old(State()).Keys(keys, screen.charColor)
      {
        assert keys[i..][0] == keys[i] && keys[i..][1..] == keys[i + 1..];
        HandleKey(keys[i]);
      }
    }

    /**
     * main on a stream of keys: whatever the screen showed before, it ends as the window of the session's log,
     * with the cursor within 0..2000 and blanks from there on.
     */
    method StartAndLoop(keys: seq<char>)
      requires Loaded()
      modifies this`len, this`running, buf, ioBuffer, bytesRead, fs.storage
      modifies screen`vgaCursor, screen`log, screen.vgaBuffer
      ensures Valid() && State() == FirstPrompt(old(fs.Files()), screen.charColor).Keys(keys, screen.charColor)
      ensures screen.log.Valid() && BlankAhead(screen.log, screen.charColor) && screen.vgaCursor <= SCREEN
    {
      hide Session.Keys, Welcome, BlankAhead, Log.Valid;
      Start();
      Loop(keys);
      WelcomeIsBlankAhead(screen.charColor);
      EverySessionKeepsScreen(FirstPrompt(old(fs.Files()), screen.charColor), keys, screen.charColor);
    }

    /** Where the echo agrees with the line, the cells of the screen just before the cursor show it. */
    lemma EchoIsOnScreen(prompt: Log)
      requires Valid() && EchoAgrees(State(), prompt, screen.charColor)
      ensures len <= screen.vgaCursor <= screen.vgaBuffer.Length
      ensures Shows(screen.vgaBuffer[screen.vgaCursor - len..screen.vgaCursor], buf[..len], screen.charColor)
    {
      var l := screen.log;
      assert screen.vgaBuffer[screen.vgaCursor - len..screen.vgaCursor] == l.cells[l.pos - len..l.pos];
    }

    /** One turn of main's loop. */
    method HandleKey(c: char)
      requires Valid()
      modifies this`len, this`running, buf, ioBuffer, bytesRead, fs.storage
      modifies screen`vgaCursor, screen`log, screen.vgaBuffer
      ensures Valid() && State() == old(State()).Key(c, screen.charColor)
    {
      if !running || c == NUL {
        return;
      }
      if c == '\n' || c == '\r' {
        PressEnter();
      } else if c == BACKSPACE {
        if len > 0 {
          ghost var line := buf[..len];
          len := len - 1;
          assert buf[..len] == line[..|line| - 1];
          screen.KPrintText([BACKSPACE, ' ', BACKSPACE]);
        }
      } else if len < CMD_MAX - 1 {
        ghost var line := buf[..len];
        buf[len] := c;
        len := len + 1;
        assert buf[..len] == line + [c];
        screen.KPrintText([c]);
      }
    }

    method PressEnter()
      requires Valid() && running
      modifies this`len, this`running, buf, ioBuffer, bytesRead, fs.storage
      modifies screen`vgaCursor, screen`log, screen.vgaBuffer
      ensures Valid() && State() == old(State()).Enter(screen.charColor)
    {
      hide Ran, Session.Enter, Log.Print, Screen.Valid, FileTable.Valid, FileTable.Files, Text, CutLine, Parse;
      ghost var session := State();
      ghost var line := buf[..len];
      buf[len] := NUL;
      assert buf[..len] == line;
      screen.KPrintText("\n");
      if len > 0 {
        TextIsPrefix(buf[..], len);
        var started := RunCommand();
        EnterRuns(session, fs.Files(), screen.log, started, screen.charColor);
        if started {
          running := false;
          return;
        }
        screen.KPrintText("\n");
      } else {
        EnterOnEmptyLine(session, screen.charColor);
      }
      screen.KPrintText(PROMPT);
      len := 0;
      assert buf[..len] == "";
    }

    /** `run_command` on the buffer that main has just terminated. */
    method RunCommand() returns (started: bool)
      requires Ready() && IsCString(buf[..])
      modifies buf, ioBuffer, bytesRead, fs.storage
      modifies screen`vgaCursor, screen`log, screen.vgaBuffer
      ensures screen.Valid() && fs.Valid()
      ensures Ran(old(fs.Files()), old(screen.log), Parse(CutLine(Text(old(buf[..])))),
                  fs.Files(), screen.log, started, screen.charColor)
      ensures '\n' !in Text(old(buf[..])) && '\r' !in Text(old(buf[..])) && started ==> buf[..] == old(buf[..])
    {
      hide Parse, Perform, Show, Wording, Log.Print, CutLine, Text, Ran;
      CutAtNewline();
      var cmd := buf[..];
      var branch := Recognize(cmd);
      started := RunBranch(branch, cmd, Parse(Text(cmd)));
    }

    /** The scan that ends the command at its first carriage return or newline. */
    method CutAtNewline()
      requires IsCString(buf[..])
      modifies buf
      ensures IsCString(buf[..]) && Text(buf[..]) == CutLine(Text(old(buf[..])))
      ensures '\n' !in Text(old(buf[..])) && '\r' !in Text(old(buf[..])) ==> buf[..] == old(buf[..])
    {
      hide Text, CutLine;
      ghost var text := Text(buf[..]);
      var clen := 0;
      assert text[..0] + CutLine(text[0..]) == CutLine(text);
      while buf[clen] != NUL
        invariant buf[..] == old(buf[..]) && 0 <= clen <= |text|
        invariant text[..clen] + CutLine(text[clen..]) == CutLine(text)
        decreases |text| - clen
      {
        CutLineStep(text, clen);
        if buf[clen] == '\r' || buf[clen] == '\n' {
          assert text[clen] in text;
          buf[clen] := NUL;
          assert buf[..][..clen] == text[..clen];
          TextIsPrefix(buf[..], clen);
          return;
        }
        clen := clen + 1;
      }
      CutLineStep(text, clen);
      assert text[..clen] == text;
    }

    /** The chosen arm of the command chain. */
    method RunBranch(branch: Branch, cmd: seq<char>, ghost r: Request) returns (started: bool)
      requires Ready() && IsCString(cmd) && cmd == buf[..] && Meaning(branch, Text(cmd), r)
      modifies buf, ioBuffer, bytesRead, fs.storage
      modifies screen`vgaCursor, screen`log, screen.vgaBuffer
      ensures screen.Valid() && fs.Valid()
      ensures Ran(old(fs.Files()), old(screen.log), r, fs.Files(), screen.log, started, screen.charColor)
      ensures started ==> buf[..] == old(buf[..])
    {
      hide Ran, Show, SkipSpaces, Text, Screen.Valid, FileTable.Valid, FileTable.Files;
      if branch.OnOther? {
        started := RunExec(cmd);
      } else if branch.OnTouch? || branch.OnWrite? || branch.OnCat? {
        RunFileBranch(branch, cmd, r);
        started := false;
      } else {
        RunFixedBranch(branch, r);
        started := false;
      }
    }

    method RunFixedBranch(branch: Branch, ghost r: Request)
      requires Ready() && Meaning(branch, "", r)
      requires branch.OnHelp? || branch.OnClear? || branch.OnBeep? || branch.OnLs?
      modifies ioBuffer, screen`vgaCursor, screen`log, screen.vgaBuffer
      ensures screen.Valid()
      ensures Ran(fs.Files(), old(screen.log), r, fs.Files(), screen.log, false, screen.charColor)
    {
      hide Ran, Show, SkipSpaces, Screen.Valid, FileTable.Valid, FileTable.Files;
      FixedAnswers(fs.Files(), screen.log, screen.charColor);
      match branch {
        case OnHelp => Say(HelpMenu);
        case OnClear => screen.KClear();
        case OnBeep => Say(Beeped);
        case OnLs => RunLs();
      }
    }

    method RunFileBranch(branch: Branch, cmd: seq<char>, ghost r: Request)
      requires Ready() && IsCString(cmd) && cmd == buf[..] && Meaning(branch, Text(cmd), r)
      requires branch.OnTouch? || branch.OnWrite? || branch.OnCat?
      modifies buf, ioBuffer, bytesRead, fs.storage
      modifies screen`vgaCursor, screen`log, screen.vgaBuffer
      ensures screen.Valid() && fs.Valid()
      ensures Ran(old(fs.Files()), old(screen.log), r, fs.Files(), screen.log, false, screen.charColor)
    {
      hide Ran, SkipSpaces, Text, Ready, Screen.Valid, FileTable.Valid, FileTable.Files, Meaning, IsCString;
      FileMeaning(branch, Text(cmd), r);
      if branch.OnTouch? {
        RunTouch(cmd, 6);
      } else if branch.OnWrite? {
        RunWrite(6);
      } else {
        RunCat(cmd, 4);
      }
    }

    method RunLs()
      requires Ready()
      modifies ioBuffer, screen`vgaCursor, screen`log, screen.vgaBuffer
      ensures screen.Valid()
      ensures Ran(fs.Files(), old(screen.log), Ls, fs.Files(), screen.log, false, screen.charColor)
    {
      hide Wording, Log.Print, Listed;
      var res := fs.List(ioBuffer, IO_MAX);
      ghost var names := Listed(fs.Files(), 0, IO_MAX);
      TextCut(names, old(ioBuffer[..])[|names| + 1..]);
      if ioBuffer[0] == NUL {
        Say(EmptyDisk);
      } else {
        screen.KPrint(ioBuffer[..]);
      }
    }

    method RunTouch(cmd: seq<char>, p: nat)
      requires Ready() && IsCString(cmd) && p <= |Text(cmd)|
      modifies fs.storage, screen`vgaCursor, screen`log, screen.vgaBuffer
      ensures screen.Valid() && fs.Valid()
      ensures Ran(old(fs.Files()), old(screen.log), TouchFile(SkipSpaces(Text(cmd)[p..])),
                  fs.Files(), screen.log, false, screen.charColor)
    {
      hide Wording, Log.Print, SkipSpaces, Created, Text, Screen.Valid;
      var filename := SkipBlanks(cmd, p);
      TextFrom(cmd, filename);
      if cmd[filename] == NUL {
        EmptyText(cmd[filename..]);
        Say(TouchUsage);
        return;
      }
      EmptyText(cmd[filename..]);
      var res := fs.Create(To(cmd[filename..]));
      if res == 0 {
        Say(FileCreated);
      } else if res == -2 {
        Say(AlreadyExists);
      } else {
        Say(NoRoom);
      }
    }

    method RunWrite(p: nat)
      requires Ready() && IsCString(buf[..]) && p <= |Text(buf[..])|
      modifies buf, fs.storage, screen`vgaCursor, screen`log, screen.vgaBuffer
      ensures screen.Valid() && fs.Valid()
      ensures Ran(old(fs.Files()), old(screen.log), WriteFile(SkipSpaces(Text(old(buf[..]))[p..])),
                  fs.Files(), screen.log, false, screen.charColor)
    {
      hide Show, SkipSpaces, Arguments, Written, Text, Screen.Valid, FileTable.Valid, FileTable.Files, Ran;
      ghost var args := SkipSpaces(Text(buf[..])[p..]);
      var found, filename, text := CutArguments(p, args);
      WriteRuns(fs.Files(), screen.log, args, found, Text(filename), Text(text), screen.charColor);
      if found {
        SaveText(filename, text);
      } else {
        Say(WriteUsage);
      }
    }

    /** write's length count, system call and answer. */
    method SaveText(filename: seq<char>, text: seq<char>)
      requires Ready() && IsCString(filename) && IsCString(text) && |text| <= CMD_MAX
      modifies fs.storage, screen`vgaCursor, screen`log, screen.vgaBuffer
      ensures screen.Valid() && fs.Valid()
      ensures var (t, code) := Written(old(fs.Files()), Text(filename), Text(text));
              && fs.Files() == t
              && screen.log == Show(old(screen.log), Said(if code == 0 then Saved else NotSaved), screen.charColor)
    {
      hide Show, Written, Text, Screen.Valid, FileTable.Valid, FileTable.Files;
      var textLen := StrLen(text);
      var res := fs.Write(To(filename), To(text), textLen);
      if res == 0 {
        Say(Saved);
      } else {
        Say(NotSaved);
      }
    }

    /** The scan that ends the file name with a NUL in place and finds the text after it. */
    method CutArguments(p: nat, ghost args: string) returns (found: bool, filename: seq<char>, text: seq<char>)
      requires IsCString(buf[..]) && p <= |Text(buf[..])| && args == SkipSpaces(Text(buf[..])[p..])
      modifies buf
      ensures Arguments(args, found, Text(filename), Text(text))
      ensures found ==> IsCString(filename) && IsCString(text) && |text| <= buf.Length
    {
      hide SkipSpaces, UpToSpace, Text, Arguments;
      ghost var whole, line := buf[..], Text(buf[..]);
      var start := SkipBlanks(buf[..], p);
      var space := SkipWord(buf[..], start);
      ArgumentsCut(line, start, space);
      if buf[space] != ' ' {
        return false, [], [];
      }
      CutAtSpace(whole, start, space);
      buf[space] := NUL;
      assert buf[..] == whole[space := NUL];
      filename := buf[..][start..];
      text := TextArgument(buf[..][space + 1..]);
      return true, filename, text;
    }

    /** What write stores: the rest of the line after further spaces. */
    method TextArgument(tail: seq<char>) returns (text: seq<char>)
      requires IsCString(tail)
      ensures IsCString(text) && |text| <= |tail| && Text(text) == SkipSpaces(Text(tail))
    {
      hide SkipSpaces, Text;
      var blanks := SkipBlanks(tail, 0);
      assert Text(tail)[0..] == Text(tail);
      TextFrom(tail, blanks);
      return tail[blanks..];
    }

    method RunCat(cmd: seq<char>, p: nat)
      requires Ready() && IsCString(cmd) && p <= |Text(cmd)|
      modifies ioBuffer, bytesRead, screen`vgaCursor, screen`log, screen.vgaBuffer
      ensures screen.Valid() && fs.Valid()
      ensures Ran(fs.Files(), old(screen.log), CatFile(SkipSpaces(Text(cmd)[p..])),
                  fs.Files(), screen.log, false, screen.charColor)
    {
      hide Wording, Log.Print, SkipSpaces, Text, Screen.Valid, FileTable.Valid, FileTable.Files, Ran, Perform;
      HasRun(fs.Files(), screen.log, CatFile(SkipSpaces(Text(cmd)[p..])), screen.charColor);
      var start := SkipBlanks(cmd, p);
      TextFrom(cmd, start);
      var filename := cmd[start..];
      EmptyText(filename);
      if filename[0] == NUL {
        Say(CatUsage);
      } else {
        PrintFile(filename);
      }
    }

    /** cat's read and print of a file with a nonempty name. */
    method PrintFile(filename: seq<char>)
      requires Ready() && IsCString(filename) && Text(filename) != ""
      modifies ioBuffer, bytesRead, screen`vgaCursor, screen`log, screen.vgaBuffer
      ensures screen.Valid() && fs.Valid()
      ensures screen.log == Show(old(screen.log), Cat(fs.Files(), Text(filename)), screen.charColor)
    {
      hide Wording, Log.Print, Shown, Text, Screen.Valid, FileTable.Valid, FileTable.Files;
      var found := LoadFile(filename);
      if found {
        screen.KPrint(ioBuffer[..]);
        screen.KPrintText(['\n']);
        PrintConcat(old(screen.log), Text(ioBuffer[..]), ['\n'], screen.charColor);
      } else {
        Say(NoFile);
      }
    }

    /** The read into the static buffer and the NUL behind what was read. */
    method LoadFile(filename: seq<char>) returns (found: bool)
      requires Ready() && IsCString(filename)
      modifies ioBuffer, bytesRead
      ensures found <==> Find(fs.Files(), Text(filename)) < |fs.Files()|
      ensures found ==> && IsCString(ioBuffer[..])
                        && Text(ioBuffer[..]) == Shown(fs.Files()[Find(fs.Files(), Text(filename))].data)
    {
      hide Text, Screen.Valid, FileTable.Valid, FileTable.Files;
      var res := fs.Read(To(filename), ioBuffer, IO_MAX - 1, bytesRead);
      if res != 0 {
        return false;
      }
      ghost var data := fs.Files()[Find(fs.Files(), Text(filename))].data;
      var n := bytesRead[0];
      ioBuffer[n] := NUL;
      assert ioBuffer[..] == data[..n] + [NUL] + ioBuffer[n + 1..];
      TextCut(data[..n], ioBuffer[n + 1..]);
      return true;
    }

    /** The exec syscall up to the decision to run; what a program does afterwards is not part of this model. */
    method RunExec(cmd: seq<char>) returns (started: bool)
      requires Ready() && IsCString(cmd)
      modifies screen`vgaCursor, screen`log, screen.vgaBuffer
      ensures screen.Valid() && fs.Valid()
      ensures Ran(fs.Files(), old(screen.log), Run(Text(cmd)), fs.Files(), screen.log, started, screen.charColor)
    {
      hide Wording, Log.Print, Text, Screen.Valid, FileTable.Valid, FileTable.Files;
      var fileBuf := new char[4096](_ => NUL);
      var fileSize := new Word[1](_ => 0);
      var lookup := fs.Read(To(cmd), fileBuf, 4096, fileSize);
      if lookup < 0 || fileSize[0] < FXE_HEADER {
        Say(UnknownCommand(Text(cmd)));
        return false;
      }
      if fileBuf[0] != 'F' || fileBuf[1] != 'X' || fileBuf[2] != 'E' || fileBuf[3] != 1 as char {
        Say(NotAProgram);
        return false;
      }
      return true;
    }
  }

  lemma EnterOnEmptyLine(s: Session, color: Color)
    requires s.line == ""
    ensures s.Enter(color) == s.(log := s.log.Print("\n", color).Print(PROMPT, color))
  {}

  /** The session after a line was entered, by what its command did. */
  lemma EnterRuns(s: Session, after: seq<File>, shown: Log, started: bool, color: Color)
    requires s.line != ""
    requires Ran(s.files, s.log.Print("\n", color), Parse(CutLine(s.line)), after, shown, started, color)
    ensures s.Enter(color) ==
            if started then Session(after, s.line, shown, false)
            else Session(after, "", shown.Print("\n", color).Print(PROMPT, color), true)
  {
    hide Parse, Perform, Wording, Log.Print;
  }

  /** What performing a request comes to. */
  lemma HasRun(t: seq<File>, log: Log, r: Request, color: Color)
    ensures var (u, output) := Perform(t, r);
            Ran(t, log, r, u, Show(log, output, color), output.ProgramStarted?, color)
    ensures r.TouchFile? ==> Perform(t, r) == Touch(t, r.args)
    ensures r.WriteFile? ==> Perform(t, r) == Write(t, r.args)
    ensures r.CatFile? ==> Perform(t, r) == (t, Cat(t, r.args))
    ensures r.Ls? ==> Perform(t, r) == (t, List(t))
    ensures r.Run? ==> Perform(t, r) == (t, Exec(t, r.name))
  {
    hide Wording, Log.Print;
  }

  /** The name and the text that write's arguments hold, if there is a space between them. */
  predicate Arguments(args: string, found: bool, name: string, text: string)
  {
    && (found <==> |UpToSpace(args)| < |args|)
    && (found ==> name == UpToSpace(args) && text == SkipSpaces(args[|name| + 1..]))
  }

  lemma WriteRuns(t: seq<File>, log: Log, args: string, found: bool, name: string, text: string, color: Color)
    requires Arguments(args, found, name, text)
    ensures var (u, code) := Written(t, name, text);
            if found
            then Ran(t, log, WriteFile(args), u, Show(log, Said(if code == 0 then Saved else NotSaved), color),
                     false, color)
            else Ran(t, log, WriteFile(args), t, Show(log, Said(WriteUsage), color), false, color)
  {
    hide Show, Written, SkipSpaces, UpToSpace;
  }

  lemma FixedAnswers(t: seq<File>, log: Log, color: Color)
    ensures Ran(t, log, Help, t, Show(log, Said(HelpMenu), color), false, color)
    ensures Ran(t, log, Clear, t, Cleared(color), false, color)
    ensures Ran(t, log, Beep, t, Show(log, Said(Beeped), color), false, color)
  {
    hide Wording, Log.Print;
  }

  lemma EmptyText(s: seq<char>)
    requires IsCString(s)
    ensures s[0] == NUL <==> Text(s) == ""
  {}

  /** The arguments from a on, whose first word ends at b. */
  lemma ArgumentsCut(line: string, a: nat, b: nat)
    requires a <= b <= |line| && line[a..b] == UpToSpace(line[a..])
    ensures b == |line| ==> Arguments(line[a..], false, "", "")
    ensures b < |line| ==> Arguments(line[a..], true, line[a..b], SkipSpaces(line[b + 1..]))
  {
    hide UpToSpace, SkipSpaces;
    assert b < |line| ==> line[a..][b - a + 1..] == line[b + 1..];
  }

  /** Cutting the line at the space after the name leaves two strings, the name and what follows the space. */
  lemma CutAtSpace(s: seq<char>, a: nat, b: nat)
    requires IsCString(s) && a <= b < |Text(s)|
    ensures var cut := s[b := NUL];
            && IsCString(cut[a..]) && Text(cut[a..]) == Text(s)[a..b]
            && IsCString(cut[b + 1..]) && Text(cut[b + 1..]) == Text(s)[b + 1..]
  {
    hide Text;
    var cut := s[b := NUL];
    assert cut[a..][..b - a] == Text(s)[a..b] && cut[a..][b - a] == NUL;
    TextIsPrefix(cut[a..], b - a);
    assert cut[b + 1..] == s[b + 1..];
    TextFrom(s, b + 1);
  }

  /** The arms of the command chain. */
  datatype Branch = OnHelp | OnClear | OnBeep | OnLs | OnTouch | OnWrite | OnCat | OnOther

  /** What the chosen arm says about the request. */
  predicate Meaning(b: Branch, line: string, r: Request)
  {
    match b
    case OnHelp => r == Help
    case OnClear => r == Clear
    case OnBeep => r == Beep
    case OnLs => r == Ls
    case OnTouch => |line| >= 6 && r == TouchFile(SkipSpaces(line[6..]))
    case OnWrite => |line| >= 6 && r == WriteFile(SkipSpaces(line[6..]))
    case OnCat => |line| >= 4 && r == CatFile(SkipSpaces(line[4..]))
    case OnOther => r == Run(line)
  }

  lemma FileMeaning(b: Branch, line: string, r: Request)
    requires Meaning(b, line, r)
    ensures b.OnTouch? ==> |line| >= 6 && r == TouchFile(SkipSpaces(line[6..]))
    ensures b.OnWrite? ==> |line| >= 6 && r == WriteFile(SkipSpaces(line[6..]))
    ensures b.OnCat? ==> |line| >= 4 && r == CatFile(SkipSpaces(line[4..]))
  {
    hide SkipSpaces;
  }

  /** A request was performed: its effect on the table, on the screen, and whether a program took over. */
  predicate Ran(before: seq<File>, logBefore: Log, r: Request, after: seq<File>, logAfter: Log, started: bool,
                color: Color)
  {
    var (t, output) := Perform(before, r);
    after == t && logAfter == Show(logBefore, output, color) && started == output.ProgramStarted?
  }

  /** The chain of comparisons. */
  method Recognize(cmd: seq<char>) returns (b: Branch)
    requires IsCString(cmd)
    ensures Meaning(b, Text(cmd), Parse(Text(cmd)))
  {
    hide Text, SkipSpaces;
    var help := Is(cmd, "help");
    if help { return OnHelp; }
    var clear := Is(cmd, "clear");
    if clear { return OnClear; }
    var beep := Is(cmd, "beep");
    if beep { return OnBeep; }
    var ls := Is(cmd, "ls");
    if ls { return OnLs; }
    var touch := Begins(cmd, "touch ");
    if touch { return OnTouch; }
    var write := Begins(cmd, "write ");
    if write { return OnWrite; }
    var cat := Begins(cmd, "cat ");
    if cat { return OnCat; }
    return OnOther;
  }

  method Is(cmd: seq<char>, word: string) returns (b: bool)
    requires IsCString(cmd) && NUL !in word
    ensures b <==> Text(cmd) == word
  {
    TextOfLiteral(word, []);
    assert word + [NUL] + [] == word + [NUL];
    var r := StrCmp(cmd, word + [NUL]);
    return r == 0;
  }

  method Begins(cmd: seq<char>, word: string) returns (b: bool)
    requires IsCString(cmd) && NUL !in word
    ensures b <==> HasPrefix(Text(cmd), word)
  {
    TextOfLiteral(word, []);
    assert word + [NUL] + [] == word + [NUL];
    var r := StrNCmp(cmd, word + [NUL], |word|);
    assert word[..|word|] == word;
    return r == 0;
  }
}
