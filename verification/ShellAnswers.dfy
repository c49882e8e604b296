/** What each line typed at the prompt does to the files and what it prints. */
module ShellAnswers {
  import opened Words
  import opened CStrings
  import opened Console
  import opened FrodFs
  import opened FrodFsRuns
  import opened ShellCommands
  import opened LineEditor

  predicate AtPrompt(s: Session)
  {
    s.running && s.line == ""
  }

  /** The session after the line was typed and entered, if these are the files and this text was printed. */
  function Answered(s: Session, line: string, files: seq<File>, text: string, color: Color): Session
  {
    Session(files, "", s.log.Print(line, color).Print("\n", color).Print(text, color).Print("\n", color)
                        .Print("FrodOS $ ", color), true)
  }

  predicate HasFile(files: seq<File>, name: string)
  {
    exists f :: f in files && f.name == name
  }

  lemma FindFile(files: seq<File>, name: string)
    ensures Find(files, name) < |files| <==> HasFile(files, name)
  {
    if Find(files, name) < |files| {
      assert files[Find(files, name)] in files;
    }
  }

  lemma CommandIsAnswered(s: Session, line: string, r: Request, color: Color)
    requires AtPrompt(s) && OneLine(line) && 0 < |line| < CMD_MAX && Parse(line) == r
    ensures var (files, output) := Perform(s.files, r);
            && (output.Said? ==>
                  s.Keys(line + ['\n'], color) == Answered(s, line, files, Wording(output.message), color))
            && (output.Printed? ==> s.Keys(line + ['\n'], color) == Answered(s, line, files, output.text, color))
            && (output.ScreenCleared? ==>
                  s.Keys(line + ['\n'], color) ==
                  Session(files, "", Cleared(color).Print("\n", color).Print("FrodOS $ ", color), true))
            && (output.ProgramStarted? ==>
                  s.Keys(line + ['\n'], color) ==
                  Session(files, line, s.log.Print(line, color).Print("\n", color), false))
  {
    hide Log.Print, Wording, Perform, Parse, Session.Keys;
    TypeCommand(s, line, color);
    NothingToCut(line);
  }

  lemma HelpIsAnswered(s: Session, color: Color)
    requires AtPrompt(s)
    ensures s.Keys("help\n", color) ==
            Answered(s, "help", s.files,
              "Available commands:\n" +
              "  help                 - Show this menu\n" +
              "  clear                - Clear the screen\n" +
              "  beep                 - Test the PC speaker\n" +
              "  ls                   - List storage files\n" +
              "  touch <file>         - Create an empty file\n" +
              "  write <file> <text>  - Write message content to file\n" +
              "  cat <file>           - Print contents of a file\n", color)
  {
    hide Log.Print, Session.Keys;
    assert "help" + ['\n'] == "help\n";
    CommandIsAnswered(s, "help", Help, color);
  }

  lemma BeepIsAnswered(s: Session, color: Color)
    requires AtPrompt(s)
    ensures s.Keys("beep\n", color) == Answered(s, "beep", s.files, "Sounding hardware test\n", color)
  {
    hide Log.Print, Session.Keys;
    assert "beep"[0] != "help"[0] && "beep"[0] != "clear"[0];
    assert "beep" + ['\n'] == "beep\n";
    CommandIsAnswered(s, "beep", Beep, color);
  }

  lemma ClearIsAnswered(s: Session, color: Color)
    requires AtPrompt(s)
    ensures s.Keys("clear\n", color) ==
            Session(s.files, "", Cleared(color).Print("\n", color).Print("FrodOS $ ", color), true)
  {
    hide Log.Print, Session.Keys, Wording;
    assert "clear"[0] != "help"[0];
    assert "clear" + ['\n'] == "clear\n";
    CommandIsAnswered(s, "clear", Clear, color);
  }

  // ---------- the texts ----------

  function AlreadyExistsText(): string { "Error: File descriptor already exists.\n" }
  function FileCreatedText(): string { "File created successfully.\n" }
  function NoRoomText(): string { "Error: Out of storage capacity nodes.\n" }
  function SavedText(): string { "Payload written to node successfully.\n" }
  function NotSavedText(): string { "Error: Could not save data block to entry.\n" }
  function NoFileText(): string { "Error: Target file not found or unreadable.\n" }
  function TouchUsageText(): string { "Usage: touch <filename>\n" }
  function WriteUsageText(): string { "Usage: write <filename> <text payload contents>\n" }
  function CatUsageText(): string { "Usage: cat <filename>\n" }
  function UnknownText(line: string): string
  {
    "Unknown command: " + line + "\nType 'help' for a list of commands.\n"
  }
  function NotAProgramText(): string
  {
    "Exec Error: Invalid FXE binary execution signature.\n" +
    "Error: Target file found but it is not a valid FXE format structure.\n"
  }

  lemma TouchTexts()
    ensures Wording(AlreadyExists) == AlreadyExistsText()
    ensures Wording(FileCreated) == FileCreatedText()
    ensures Wording(NoRoom) == NoRoomText()
    ensures Wording(TouchUsage) == TouchUsageText()
  {}

  lemma WriteTexts()
    ensures Wording(Saved) == SavedText()
    ensures Wording(NotSaved) == NotSavedText()
    ensures Wording(WriteUsage) == WriteUsageText()
  {}

  lemma CatTexts()
    ensures Wording(NoFile) == NoFileText()
    ensures Wording(CatUsage) == CatUsageText()
  {}

  lemma ProgramTexts(line: string)
    ensures Wording(NotAProgram) == NotAProgramText()
    ensures Wording(UnknownCommand(line)) == UnknownText(line)
  {}

  // ---------- files ----------

  /** The file that a name stands for is the first of that name. */
  predicate IsFile(files: seq<File>, name: string, i: nat)
  {
    i < |files| && files[i].name == name && !HasFile(files[..i], name)
  }

  lemma FindIsFile(files: seq<File>, name: string, i: nat)
    requires IsFile(files, name, i)
    ensures Find(files, name) == i < |files| && files[i].name == name
  {
    assert forall k | 0 <= k < i :: files[..i][k] in files[..i];
    FindIs(files, name, i);
  }

  /** ls prints each name and a newline, in slot order. */
  lemma LsIsAnswered(s: Session, color: Color)
    requires AtPrompt(s) && WellFormed(s.files)
    requires forall f | f in s.files :: '\n' !in f.name && NUL !in f.name
    ensures s.Keys("ls\n", color) ==
            Answered(s, "ls", s.files, if s.files == [] then "[Empty Storage Disk]\n" else Lines(Names(s.files)), color)
  {
    hide Log.Print, Session.Keys;
    assert |"ls"| == 2 && |"help"| == 4 && |"clear"| == 5 && |"beep"| == 4;
    assert "ls" + ['\n'] == "ls\n";
    CommandIsAnswered(s, "ls", Ls, color);
    ListedIsComplete(s.files, IO_MAX);
    ListedHasNoNul(s.files, 0, IO_MAX);
    TextWithoutNul(Listed(s.files, 0, IO_MAX));
    if s.files != [] {
      assert |Lines(Names(s.files))| > 0;
    }
  }

  lemma ListedIsComplete(t: seq<File>, maxBytes: nat)
    requires WellFormed(t) && maxBytes >= 1026
    ensures Listed(t, 0, maxBytes) == Lines(Names(t))
  {
    ListingIsLongestFittingPrefix(t, 0, maxBytes);
    var n := FitCount(t, 0, maxBytes);
    LinesLength(Names(t)[..n]);
    assert Names(t)[..n] == Names(t);
  }

  /** A name as touch and cat take it from the line. */
  predicate IsArgument(name: string)
  {
    name != "" && OneLine(name) && name[0] != ' '
  }

  lemma TouchIsAnswered(s: Session, name: string, color: Color)
    requires AtPrompt(s) && IsArgument(name) && |name| < 250
    ensures s.Keys(TouchLine(name) + ['\n'], color) ==
            if HasFile(s.files, name) then Answered(s, TouchLine(name), s.files, AlreadyExistsText(), color)
            else if |s.files| < 32 then
              Answered(s, TouchLine(name), s.files + [File(if |name| < 32 then name else name[..31], "")],
                       FileCreatedText(), color)
            else Answered(s, TouchLine(name), s.files, NoRoomText(), color)
  {
    hide AlreadyExistsText, FileCreatedText, NoRoomText, TouchUsageText;
    TouchDoes(s.files, name);
    TouchTexts();
    LineOfTouch(name);
    hide Log.Print, Session.Keys, Parse, Answered, Wording, Perform, HasFile, TouchLine, OneLine;
    CommandIsAnswered(s, TouchLine(name), TouchFile(name), color);
  }

  lemma LineOfTouch(name: string)
    requires OneLine(name) && (name == "" || name[0] != ' ')
    ensures Parse(TouchLine(name)) == TouchFile(name) && OneLine(TouchLine(name)) && |TouchLine(name)| == 6 + |name|
  {
    hide Parse;
    ParseTouch(name);
  }

  lemma LineOfWrite(args: string)
    requires OneLine(args) && (args == "" || args[0] != ' ')
    ensures Parse("write " + args) == WriteFile(args) && OneLine("write " + args)
  {
    hide Parse;
    ParseWrite(args);
  }

  lemma LineOfCat(name: string)
    requires OneLine(name) && (name == "" || name[0] != ' ')
    ensures Parse(CatLine(name)) == CatFile(name) && OneLine(CatLine(name)) && |CatLine(name)| == 4 + |name|
  {
    hide Parse;
    ParseCat(name);
  }

  lemma TouchDoes(files: seq<File>, name: string)
    requires name != ""
    ensures Perform(files, TouchFile(name)) ==
            if HasFile(files, name) then (files, Said(AlreadyExists))
            else if |files| < 32 then (files + [File(if |name| < 32 then name else name[..31], "")], Said(FileCreated))
            else (files, Said(NoRoom))
  {
    hide Find, HasFile, Wording;
    FindFile(files, name);
    assert Stored(name) == if |name| < 32 then name else name[..31];
  }

  /** A write to a file of that name, and without one. */
  lemma WriteIsAnswered(s: Session, name: string, text: string, color: Color)
    requires AtPrompt(s) && IsArgument(name) && ' ' !in name && SimpleText(text) && |name| + |text| < 249
    ensures !HasFile(s.files, name) ==>
              s.Keys(WriteLine(name, text) + ['\n'], color) ==
              Answered(s, WriteLine(name, text), s.files, NotSavedText(), color)
    ensures forall i: nat | IsFile(s.files, name, i) ::
              s.Keys(WriteLine(name, text) + ['\n'], color) ==
              Answered(s, WriteLine(name, text), s.files[i := File(name, text)],
                       SavedText(), color)
  {
    hide NotSavedText, SavedText, WriteUsageText;
    var args := name + ([' '] + text);
    LineOfWrite(args);
    WriteDoes(s.files, name, text);
    WriteTexts();
    hide Log.Print, Session.Keys, Parse, HasFile, IsFile, Answered, Wording, Perform, OneLine;
    CommandIsAnswered(s, "write " + args, WriteFile(args), color);
  }

  lemma WriteDoes(files: seq<File>, name: string, text: string)
    requires IsArgument(name) && ' ' !in name && SimpleText(text) && |name| + |text| < 249
    ensures var (u, output) := Perform(files, WriteFile(name + ([' '] + text)));
            && (!HasFile(files, name) ==> u == files && output == Said(NotSaved))
            && (forall i: nat | IsFile(files, name, i) :: u == files[i := File(name, text)] && output == Said(Saved))
  {
    PerformWrite(files, name, text);
    hide Perform;
    hide Find, SkipSpaces, UpToSpace, IsFile, HasFile, Wording, OneLine;
    FindFile(files, name);
    forall i: nat | IsFile(files, name, i)
      ensures Find(files, name) == i < |files| && files[i].name == name
    {
      FindIsFile(files, name, i);
    }
  }

  /** What cat shows of a file without NULs: its first 4095 bytes. */
  function FirstBytes(data: seq<char>): seq<char>
  {
    if |data| < 4096 then data else data[..4095]
  }

  lemma CatIsAnswered(s: Session, name: string, color: Color)
    requires AtPrompt(s) && IsArgument(name) && |name| < 252
    ensures !HasFile(s.files, name) ==>
              s.Keys(CatLine(name) + ['\n'], color) ==
              Answered(s, CatLine(name), s.files, NoFileText(), color)
    ensures forall i: nat | IsFile(s.files, name, i) && NUL !in s.files[i].data ::
              s.Keys(CatLine(name) + ['\n'], color) ==
              Answered(s, CatLine(name), s.files, FirstBytes(s.files[i].data) + ['\n'], color)
  {
    hide NoFileText, CatUsageText;
    LineOfCat(name);
    CatDoes(s.files, name);
    CatTexts();
    hide Log.Print, Session.Keys, Parse, HasFile, Answered, Wording, Perform, Cat, FirstBytes, CatLine, OneLine;
    CommandIsAnswered(s, CatLine(name), CatFile(name), color);
  }

  lemma CatDoes(files: seq<File>, name: string)
    requires name != ""
    ensures var (u, output) := Perform(files, CatFile(name));
            && u == files
            && (!HasFile(files, name) ==> output == Said(NoFile))
            && (forall i: nat | IsFile(files, name, i) && NUL !in files[i].data ::
                  output == Printed(FirstBytes(files[i].data) + ['\n']))
  {
    hide Find, Text, HasFile, Wording;
    FindFile(files, name);
    forall i: nat | IsFile(files, name, i) && NUL !in files[i].data
      ensures Find(files, name) == i && Shown(files[i].data) == FirstBytes(files[i].data)
    {
      FindIsFile(files, name, i);
      TextWithoutNul(FirstBytes(files[i].data));
      assert files[i].data[..Min(|files[i].data|, IO_MAX - 1)] == FirstBytes(files[i].data);
    }
  }

  /** The commands that take arguments, without any. */
  lemma TouchUsageIsAnswered(s: Session, color: Color)
    requires AtPrompt(s)
    ensures s.Keys(TouchLine("") + ['\n'], color) == Answered(s, TouchLine(""), s.files, TouchUsageText(), color)
  {
    hide AlreadyExistsText, FileCreatedText, NoRoomText, TouchUsageText;
    TouchTexts();
    LineOfTouch("");
    assert Perform(s.files, TouchFile("")) == (s.files, Said(TouchUsage));
    hide Log.Print, Session.Keys, Parse, Answered, Wording, TouchLine, OneLine, Perform;
    CommandIsAnswered(s, TouchLine(""), TouchFile(""), color);
  }

  lemma CatUsageIsAnswered(s: Session, color: Color)
    requires AtPrompt(s)
    ensures s.Keys(CatLine("") + ['\n'], color) == Answered(s, CatLine(""), s.files, CatUsageText(), color)
  {
    hide NoFileText, CatUsageText;
    CatTexts();
    LineOfCat("");
    assert Perform(s.files, CatFile("")) == (s.files, Said(CatUsage));
    hide Log.Print, Session.Keys, Parse, Answered, Wording, CatLine, OneLine, Perform;
    CommandIsAnswered(s, CatLine(""), CatFile(""), color);
  }

  /** A write without a space after its name. */
  lemma WriteUsageIsAnswered(s: Session, name: string, color: Color)
    requires AtPrompt(s) && OneLine(name) && ' ' !in name && |name| < 250
    ensures s.Keys("write " + name + ['\n'], color) == Answered(s, "write " + name, s.files, WriteUsageText(), color)
  {
    hide SavedText, NotSavedText, WriteUsageText;
    WriteTexts();
    WriteUsageDoes(s.files, name);
    if name != "" {
      assert name[0] in name;
    }
    LineOfWrite(name);
    hide Log.Print, Session.Keys, Parse, Answered, Wording, OneLine, Perform;
    CommandIsAnswered(s, "write " + name, WriteFile(name), color);
  }

  lemma WriteUsageDoes(files: seq<File>, name: string)
    requires ' ' !in name
    ensures Perform(files, WriteFile(name)) == (files, Said(WriteUsage))
  {
    NameUpToSpace(name, "");
    assert name + "" == name;
  }

  /** A line that is empty only gets a new prompt, and a carriage return enters a line as a newline does. */
  lemma EmptyLineIsAnswered(s: Session, color: Color)
    requires AtPrompt(s)
    ensures s.Keys("\n", color) == s.(log := s.log.Print("\n", color).Print("FrodOS $ ", color))
  {
    hide Log.Print;
    assert "\n"[1..] == "";
    assert s.Keys("\n", color) == s.Key('\n', color).Keys("", color);
  }

  lemma CarriageReturnEnters(s: Session, color: Color)
    ensures s.Keys(['\r'], color) == s.Keys(['\n'], color)
  {
    hide Log.Print, Command;
    assert ['\n'][1..] == [] && ['\r'][1..] == [];
  }

  // ---------- the first prompt ----------

  function BannerText(): string
  {
    "========================================\n" +
    "         Welcome to FrodOS Userland!      \n" +
    "========================================\n\n" +
    "FrodOS $ "
  }

  /** The shell begins on a cleared screen with the banner and the prompt. */
  lemma FirstPromptShowsBanner(files: seq<File>, color: Color)
    ensures FirstPrompt(files, color) == Session(files, "", Cleared(color).Print(BannerText(), color), true)
  {
    hide Log.Print, Cleared;
    var a, b, c, d := BANNER_RULE, BANNER_TEXT, BANNER_RULE + "\n", PROMPT;
    PrintConcat(Cleared(color), a, b, color);
    PrintConcat(Cleared(color), a + b, c, color);
    PrintConcat(Cleared(color), a + b + c, d, color);
    assert a + b + c + d == BannerText();
  }

  /** None of the built-in commands. */
  predicate IsOther(line: string)
  {
    && line != "help" && line != "clear" && line != "beep" && line != "ls"
    && !("touch " <= line) && !("write " <= line) && !("cat " <= line)
  }

  /** The file begins with the bytes of a program's header, and holds a whole header. */
  predicate IsProgram(data: seq<char>)
  {
    |data| >= 32 && data[0] == 'F' && data[1] == 'X' && data[2] == 'E' && data[3] == 1 as char
  }

  /** There is no such file, or it is too short for a header. */
  ghost predicate HasNoHeader(files: seq<File>, name: string)
  {
    !HasFile(files, name) || exists i: nat :: IsFile(files, name, i) && |files[i].data| < 32
  }

  /** Any other line is the name of a program: it runs, or the shell says what is wrong. */
  lemma OtherIsAnswered(s: Session, line: string, color: Color)
    requires AtPrompt(s) && OneLine(line) && 0 < |line| < 256 && IsOther(line)
    ensures HasNoHeader(s.files, line) ==>
              s.Keys(line + ['\n'], color) == Answered(s, line, s.files, UnknownText(line), color)
    ensures forall i: nat | IsFile(s.files, line, i) && |s.files[i].data| >= 32 ::
              s.Keys(line + ['\n'], color) ==
              if IsProgram(s.files[i].data)
              then Session(s.files, line, s.log.Print(line, color).Print("\n", color), false)
              else Answered(s, line, s.files, NotAProgramText(), color)
  {
    hide UnknownText, NotAProgramText;
    OtherDoes(s.files, line);
    ProgramTexts(line);
    OtherIsRun(line);
    hide IsOther, HasNoHeader, OneLine;
    hide Log.Print, Session.Keys, Parse, HasFile, Answered, Wording, Perform, Exec, IsProgram;
    CommandIsAnswered(s, line, Run(line), color);
  }

  lemma OtherIsRun(line: string)
    requires IsOther(line)
    ensures Parse(line) == Run(line)
  {}

  lemma OtherDoes(files: seq<File>, line: string)
    ensures var (u, output) := Perform(files, Run(line));
            && u == files
            && (HasNoHeader(files, line) ==> output == Said(UnknownCommand(line)))
            && (forall i: nat | IsFile(files, line, i) && |files[i].data| >= 32 ::
                  output == if IsProgram(files[i].data) then ProgramStarted else Said(NotAProgram))
  {
    hide Find, HasFile, Wording;
    FindFile(files, line);
    forall i: nat | IsFile(files, line, i)
      ensures Find(files, line) == i
    {
      FindIsFile(files, line, i);
    }
  }
}
