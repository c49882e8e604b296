/** What the shell's commands do to the file table and what they print. */
module ShellCommands {
  import opened Words
  import opened CStrings
  import opened FrodFs
  import opened FrodFsRuns

  const CMD_MAX := 256
  const IO_MAX := 4096
  const FXE_HEADER := 32

  /** The fixed texts of the shell. */
  datatype Message =
    | HelpMenu | EmptyDisk | FileCreated | AlreadyExists | NoRoom | TouchUsage | Saved | NotSaved | WriteUsage
    | CatUsage | NoFile | Beeped | NotAProgram | UnknownCommand(name: string)

  function Wording(m: Message): string
  {
    match m
    case HelpMenu =>
      "Available commands:\n" +
      "  help                 - Show this menu\n" +
      "  clear                - Clear the screen\n" +
      "  beep                 - Test the PC speaker\n" +
      "  ls                   - List storage files\n" +
      "  touch <file>         - Create an empty file\n" +
      "  write <file> <text>  - Write message content to file\n" +
      "  cat <file>           - Print contents of a file\n"
    case EmptyDisk => "[Empty Storage Disk]\n"
    case FileCreated => "File created successfully.\n"
    case AlreadyExists => "Error: File descriptor already exists.\n"
    case NoRoom => "Error: Out of storage capacity nodes.\n"
    case TouchUsage => "Usage: touch <filename>\n"
    case Saved => "Payload written to node successfully.\n"
    case NotSaved => "Error: Could not save data block to entry.\n"
    case WriteUsage => "Usage: write <filename> <text payload contents>\n"
    case CatUsage => "Usage: cat <filename>\n"
    case NoFile => "Error: Target file not found or unreadable.\n"
    case Beeped => "Sounding hardware test\n"
    case NotAProgram =>
      "Exec Error: Invalid FXE binary execution signature.\n" +
      "Error: Target file found but it is not a valid FXE format structure.\n"
    case UnknownCommand(name) => "Unknown command: " + name + "\nType 'help' for a list of commands.\n"
  }

  /** What a command leaves on the screen; a valid program takes over and does not return. */
  datatype Output = Said(message: Message) | Printed(text: string) | ScreenCleared | ProgramStarted

  function SkipSpaces(s: string): (r: string)
    ensures |r| <= |s| && r == s[|s| - |r|..]
    ensures r == "" || r[0] != ' '
    ensures forall k | 0 <= k < |s| - |r| :: s[k] == ' '
  {
    if s != "" && s[0] == ' ' then SkipSpaces(s[1..]) else s
  }

  function UpToSpace(s: string): (r: string)
    ensures r <= s && ' ' !in r
    ensures |r| < |s| ==> s[|r|] == ' '
  {
    if s == "" || s[0] == ' ' then "" else [s[0]] + UpToSpace(s[1..])
  }

  /** Up to the first carriage return or newline. */
  function CutLine(s: string): (r: string)
    ensures r <= s
    ensures |r| < |s| ==> s[|r|] == '\r' || s[|r|] == '\n'
    ensures '\r' !in r && '\n' !in r
  {
    if s == "" || s[0] == '\r' || s[0] == '\n' then "" else [s[0]] + CutLine(s[1..])
  }

  function Touch(t: seq<File>, name: string): (r: (seq<File>, Output))
    ensures !r.1.ProgramStarted?
  {
    if name == "" then (t, Said(TouchUsage))
    else
      var (u, code) := Created(t, name);
      (u, Said(if code == 0 then FileCreated else if code == -2 then AlreadyExists else NoRoom))
  }

  function Write(t: seq<File>, args: string): (r: (seq<File>, Output))
    ensures !r.1.ProgramStarted?
  {
    var name := UpToSpace(args);
    if |name| == |args| then (t, Said(WriteUsage))
    else
      var (u, code) := Written(t, name, SkipSpaces(args[|name| + 1..]));
      (u, Said(if code == 0 then Saved else NotSaved))
  }

  /** The file as a C string prints it: up to a NUL, at most 4095 bytes. */
  function Shown(data: seq<char>): string
  {
    Text(data[..Min(|data|, IO_MAX - 1)])
  }

  function Cat(t: seq<File>, name: string): (r: Output)
    ensures !r.ProgramStarted?
  {
    if name == "" then Said(CatUsage)
    else
      var i := Find(t, name);
      if i < |t| then Printed(Shown(t[i].data) + ['\n']) else Said(NoFile)
  }

  function List(t: seq<File>): (r: Output)
    ensures !r.ProgramStarted?
  {
    var names := Text(Listed(t, 0, IO_MAX));
    if names == "" then Said(EmptyDisk) else Printed(names)
  }

  predicate HasFxeMagic(data: seq<char>)
    requires |data| >= 4
  {
    data[0] == 'F' && data[1] == 'X' && data[2] == 'E' && data[3] == 1 as char
  }

  /** The fallback: a file of that name is run if it is a program. */
  function Exec(t: seq<File>, name: string): Output
  {
    var i := Find(t, name);
    if i == |t| || |t[i].data| < FXE_HEADER then Said(UnknownCommand(name))
    else if !HasFxeMagic(t[i].data) then Said(NotAProgram)
    else ProgramStarted
  }

  predicate HasPrefix(s: string, p: string)
  {
    |p| <= |s| && s[..|p|] == p
  }

  /** The command that a line asks for, with its arguments. */
  datatype Request =
    | Help | Clear | Beep | Ls
    | TouchFile(args: string) | WriteFile(args: string) | CatFile(args: string) | Run(name: string)

  function Parse(cmd: string): Request
  {
    if cmd == "help" then Help
    else if cmd == "clear" then Clear
    else if cmd == "beep" then Beep
    else if cmd == "ls" then Ls
    else if HasPrefix(cmd, "touch ") then TouchFile(SkipSpaces(cmd[6..]))
    else if HasPrefix(cmd, "write ") then WriteFile(SkipSpaces(cmd[6..]))
    else if HasPrefix(cmd, "cat ") then CatFile(SkipSpaces(cmd[4..]))
    else Run(cmd)
  }

  function Perform(t: seq<File>, r: Request): (seq<File>, Output)
  {
    match r
    case Help => (t, Said(HelpMenu))
    case Clear => (t, ScreenCleared)
    case Beep => (t, Said(Beeped))
    case Ls => (t, List(t))
    case TouchFile(name) => Touch(t, name)
    case WriteFile(args) => Write(t, args)
    case CatFile(name) => (t, Cat(t, name))
    case Run(name) => (t, Exec(t, name))
  }

  /** `run_command` on the text of its buffer. */
  function Command(t: seq<File>, line: string): (seq<File>, Output)
  {
    Perform(t, Parse(CutLine(line)))
  }

  // ---------- the round trip of touch, write and cat ----------

  /** Characters that a key stream carries into the line unchanged. */
  predicate OneLine(s: string)
  {
    '\n' !in s && '\r' !in s && NUL !in s && BACKSPACE !in s
  }

  /** A file name that all three commands read alike. */
  predicate SimpleName(name: string)
  {
    0 < |name| < FS_MAX_NAME && OneLine(name) && ' ' !in name
  }

  predicate SimpleText(text: string)
  {
    OneLine(text) && (text == "" || text[0] != ' ')
  }

  lemma {:induction false} NothingToCut(s: string)
    requires '\n' !in s && '\r' !in s
    ensures CutLine(s) == s
  {
    if s != "" {
      assert s[0] in s;
      NothingToCut(s[1..]);
    }
  }

  lemma {:induction false} NameUpToSpace(name: string, rest: string)
    requires ' ' !in name && (rest == "" || rest[0] == ' ')
    ensures UpToSpace(name + rest) == name
  {
    if name == "" {
      assert name + rest == rest;
    } else {
      assert name[0] in name && (name + rest)[1..] == name[1..] + rest;
      NameUpToSpace(name[1..], rest);
    }
  }

  lemma ParseTouch(args: string)
    requires args == "" || args[0] != ' '
    ensures Parse("touch " + args) == TouchFile(args)
  {
    var cmd := "touch " + args;
    NoSpacesToSkip(args);
    assert cmd[0] == 't' && cmd[6..] == args && cmd[..6] == "touch ";
    FirstLetters();
  }

  lemma ParseWrite(args: string)
    requires args == "" || args[0] != ' '
    ensures Parse("write " + args) == WriteFile(args)
  {
    var cmd := "write " + args;
    NoSpacesToSkip(args);
    assert cmd[0] == 'w' && cmd[6..] == args && cmd[..6] == "write ";
    FirstLetters();
  }

  lemma ParseCat(args: string)
    requires args == "" || args[0] != ' '
    ensures Parse("cat " + args) == CatFile(args)
  {
    var cmd := "cat " + args;
    NoSpacesToSkip(args);
    assert cmd[0] == 'c' && cmd[1] == 'a' && cmd[4..] == args && cmd[..4] == "cat ";
    FirstLetters();
  }

  lemma FirstLetters()
    ensures "help"[0] == 'h' && "clear"[1] == 'l' && "clear"[0] == 'c' && "beep"[0] == 'b' && "ls"[0] == 'l'
    ensures "touch "[0] == 't' && "write "[0] == 'w' && "cat "[0] == 'c'
  {}

  lemma NoSpacesToSkip(s: string)
    requires s == "" || s[0] != ' '
    ensures SkipSpaces(s) == s
  {}

  lemma WriteArguments(t: seq<File>, name: string, text: string)
    requires ' ' !in name && SimpleText(text)
    ensures var (u, code) := Written(t, name, text);
            Write(t, name + ([' '] + text)) == (u, Said(if code == 0 then Saved else NotSaved))
  {
    hide Written, SkipSpaces, UpToSpace;
    NameUpToSpace(name, [' '] + text);
    NoSpacesToSkip(text);
    var args := name + ([' '] + text);
    assert args[|name| + 1..] == text;
  }

  lemma PerformWrite(t: seq<File>, name: string, text: string)
    requires ' ' !in name && SimpleText(text)
    ensures var (u, code) := Written(t, name, text);
            Perform(t, WriteFile(name + ([' '] + text))) == (u, Said(if code == 0 then Saved else NotSaved))
  {
    WriteArguments(t, name, text);
    hide Write, Touch, Cat, List, Exec, Written, OneLine;
  }

  lemma TextWithoutNul(s: string)
    requires NUL !in s
    ensures Text(s) == s
  {
    if s != "" {
      assert s[0] in s;
      TextWithoutNul(s[1..]);
    }
  }

  function TouchLine(name: string): string { "touch " + name }
  function WriteLine(name: string, text: string): string { "write " + (name + ([' '] + text)) }
  function CatLine(name: string): string { "cat " + name }

  /** touch, write, cat: the text comes back followed by a newline, and every other file is as it was. */
  lemma TouchWriteCat(t: seq<File>, name: string, text: string)
    requires SimpleName(name) && SimpleText(text) && |text| < CMD_MAX
    requires |t| < FS_MAX_FILES && Find(t, name) == |t|
    ensures var (t1, o1) := Command(t, TouchLine(name));
            var (t2, o2) := Command(t1, WriteLine(name, text));
            && o1 == Said(FileCreated) && o2 == Said(Saved)
            && t2 == t + [File(name, text)]
            && Command(t2, CatLine(name)) == (t2, Printed(text + ['\n']))
  {
    hide Parse, Write;
    assert Stored(name) == name;
    var t1, t2 := t + [File(name, "")], t + [File(name, text)];
    LinesParse(name, text);
    FindIs(t1, name, |t|);
    WriteArguments(t1, name, text);
    assert t1[|t| := File(name, text)] == t2;
    FindIs(t2, name, |t|);
    TextWithoutNul(text);
    assert text[..|text|] == text;
  }

  lemma LinesParse(name: string, text: string)
    requires SimpleName(name) && SimpleText(text)
    ensures Parse(CutLine(TouchLine(name))) == TouchFile(name)
    ensures Parse(CutLine(WriteLine(name, text))) == WriteFile(name + ([' '] + text))
    ensures Parse(CutLine(CatLine(name))) == CatFile(name)
  {
    hide Parse;
    assert name[0] in name;
    ParseTouch(name);
    NothingToCut(TouchLine(name));
    ParseWrite(name + ([' '] + text));
    NothingToCut(WriteLine(name, text));
    ParseCat(name);
    NothingToCut(CatLine(name));
  }

  /** `ls` shows every file, one name to a line, in the order they were created. */
  lemma LsShowsEveryName(t: seq<File>)
    requires WellFormed(t) && t != []
    requires forall f | f in t :: '\n' !in f.name && NUL !in f.name
    ensures List(t).Printed? && ParseLines(List(t).text, "") == Names(t)
  {
    ListingParsesBack(t, IO_MAX);
    ListedHasNoNul(t, 0, IO_MAX);
    TextWithoutNul(Listed(t, 0, IO_MAX));
    assert ParseLines("", "") == [];
  }

  lemma {:induction false} ListedHasNoNul(t: seq<File>, idx: nat, maxBytes: nat)
    requires forall f | f in t :: NUL !in f.name
    ensures NUL !in Listed(t, idx, maxBytes)
  {
    if t != [] {
      assert t[0] in t;
      ListedHasNoNul(t[1..], idx + |t[0].name| + 1, maxBytes);
    }
  }
}
