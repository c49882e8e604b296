/** The import of the boot archive into the file table, in kernel_main. */
module Bootstrap {
  import opened Words
  import opened CStrings
  import opened Ustar
  import opened RamFs
  import opened FrodFs

  datatype Entry = Entry(name: string, data: seq<char>)

  // ---------- the entries of a well-formed archive ----------

  /** Every name field holds a NUL, and no header's address wraps; the last file may be cut short. */
  predicate WellFormedArchive(m: Memory, addr: nat, end: Word)
    requires addr + BLOCK < WORD_LIMIT
    decreases WORD_LIMIT - addr
  {
    addr + BLOCK > end || m[addr] == NUL ||
    var next := NextHeader(addr, KernelSizeAt(m, addr));
    && NUL in m[addr..addr + NAME_FIELD]
    && next + BLOCK < WORD_LIMIT
    && WellFormedArchive(m, next, end)
  }

  predicate DataFits(m: Memory, addr: nat, end: Word)
    requires addr + BLOCK < WORD_LIMIT
  {
    addr + BLOCK + KernelSizeAt(m, addr) <= end
  }

  function EntryAt(m: Memory, addr: nat): Entry
    requires addr + BLOCK < WORD_LIMIT && addr + BLOCK + KernelSizeAt(m, addr) < WORD_LIMIT
  {
    Entry(Text(m[addr..addr + NAME_FIELD]), m[addr + BLOCK..addr + BLOCK + KernelSizeAt(m, addr)])
  }

  /** The files whose data the module holds, in order. */
  function Entries(m: Memory, addr: nat, end: Word): seq<Entry>
    requires addr + BLOCK < WORD_LIMIT && WellFormedArchive(m, addr, end)
    decreases WORD_LIMIT - addr
  {
    if addr + BLOCK > end || m[addr] == NUL then []
    else (if DataFits(m, addr, end) then [EntryAt(m, addr)] else []) +
         Entries(m, NextHeader(addr, KernelSizeAt(m, addr)), end)
  }

  lemma WalkStep(m: Memory, addr: nat, end: Word)
    requires addr + BLOCK < WORD_LIMIT && WellFormedArchive(m, addr, end)
    ensures addr + BLOCK > end || m[addr] == NUL ==> Entries(m, addr, end) == []
    ensures addr + BLOCK <= end && m[addr] != NUL ==>
              var size := KernelSizeAt(m, addr);
              var next := NextHeader(addr, size);
              && NUL in m[addr..addr + NAME_FIELD]
              && addr + BLOCK + size <= next
              && next + BLOCK < WORD_LIMIT
              && WellFormedArchive(m, next, end)
              && Entries(m, addr, end) ==
                 (if DataFits(m, addr, end) then [EntryAt(m, addr)] else []) + Entries(m, next, end)
  {
    if addr + BLOCK <= end {
      RoundUpFacts(KernelSizeAt(m, addr));
    }
  }

  function EntriesOf(files: seq<TarFile>): seq<Entry>
    requires forall f | f in files :: f.Valid()
  {
    if files == [] then [] else [Entry(files[0].name, files[0].data)] + EntriesOf(files[1..])
  }

  lemma WrittenEntry(m: Memory, addr: nat, f: TarFile)
    requires f.Valid() && addr + BLOCK + |f.data| < WORD_LIMIT
    requires Placed(m, addr, f.Header()) && Placed(m, addr + BLOCK, f.data)
    ensures m[addr] != NUL && KernelSizeAt(m, addr) == |f.data|
    ensures NUL in m[addr..addr + NAME_FIELD]
    ensures EntryAt(m, addr) == Entry(f.name, f.data)
  {
    HeaderReadsBack(m, addr, f);
    hide TarFile.Header, SizeFieldAt, RegularAt, TextAt, Text;
    NameFieldText(m, addr, f.name);
    assert m[addr + BLOCK..addr + BLOCK + |f.data|] == f.data;
  }

  /** The text of a name field is the name that stands in it. */
  lemma NameFieldText(m: Memory, addr: nat, name: string)
    requires addr + BLOCK < WORD_LIMIT && TextAt(m, addr, name) && |name| < NAME_FIELD && NUL !in name
    ensures NUL in m[addr..addr + NAME_FIELD] && Text(m[addr..addr + NAME_FIELD]) == name
  {
    hide Text;
    var field := m[addr..addr + NAME_FIELD];
    assert field[|name|] == m[Wrap(addr + |name|)];
    forall i | 0 <= i < |name|
      ensures field[i] == name[i]
    {
      assert field[i] == m[Wrap(addr + i)];
    }
    assert field[..|name|] == name;
    TextIsPrefix(field, |name|);
  }

  /** The import loop meets exactly the files that the writer put there. */
  lemma {:induction false} WrittenArchiveEntries(m: Memory, start: nat, end: Word, files: seq<TarFile>)
    requires HoldsArchive(m, start, end, files)
    ensures WellFormedArchive(m, start, end)
    ensures Entries(m, start, end) == EntriesOf(files)
    decreases |files|
  {
    if files != [] {
      ArchiveParts(m, start, end, files);
      RoundUpFacts(|files[0].data|);
      WrittenEntry(m, start, files[0]);
      WrittenArchiveEntries(m, NextHeader(start, |files[0].data|), end, files[1..]);
    }
  }

  // ---------- what the import does with them ----------

  /** The part after the last '/'. */
  function Basename(path: string): (b: string)
    ensures '/' !in b
  {
    if '/' !in path then path else Basename(path[1..])
  }

  /** The part before the first '.', cut at `room` characters. */
  function Stem(base: string, room: nat): (s: string)
    ensures |s| <= room && s <= base && '.' !in s
  {
    if base == "" || base[0] == '.' || room == 0 then "" else [base[0]] + Stem(base[1..], room - 1)
  }

  const STEM_MAX := 31

  predicate Eligible(e: Entry)
  {
    Basename(e.name) != "shell.bin" && Basename(e.name) != "" && |e.data| > 0
  }

  function StemOf(e: Entry): (s: string)
    ensures |s| <= STEM_MAX
  {
    Stem(Basename(e.name), STEM_MAX)
  }

  /** One turn of the loop: create, then write whatever the create returned. */
  function Imported(t: seq<File>, e: Entry): seq<File>
  {
    if Eligible(e) then Written(Created(t, StemOf(e)).0, StemOf(e), e.data).0 else t
  }

  function ImportAll(es: seq<Entry>): seq<File>
  {
    if es == [] then [] else Imported(ImportAll(es[..|es| - 1]), es[|es| - 1])
  }

  lemma ImportAllAppend(done: seq<Entry>, here: seq<Entry>)
    requires |here| <= 1
    ensures ImportAll(done + here) == if here == [] then ImportAll(done) else Imported(ImportAll(done), here[0])
  {
    hide Imported;
    if here == [] {
      assert done + here == done;
    } else {
      assert (done + here)[..|done|] == done;
    }
  }

  // ---------- the table it must end with ----------

  /** The distinct nonempty stems of the eligible entries, in order of first appearance. */
  function DistinctStems(es: seq<Entry>): seq<string>
  {
    if es == [] then []
    else
      var before := DistinctStems(es[..|es| - 1]);
      var e := es[|es| - 1];
      if Eligible(e) && StemOf(e) != "" && StemOf(e) !in before then before + [StemOf(e)] else before
  }

  /** The data of the last eligible entry of that stem that fits a slot; empty without one. */
  function LastFitting(es: seq<Entry>, stem: string): seq<char>
  {
    if es == [] then ""
    else
      var e := es[|es| - 1];
      if Eligible(e) && StemOf(e) == stem && |e.data| <= FS_MAX_SIZE then e.data
      else LastFitting(es[..|es| - 1], stem)
  }

  ghost predicate AreStems(d: seq<string>)
  {
    && (forall i, j | 0 <= i < j < |d| :: d[i] != d[j])
    && (forall i | 0 <= i < |d| :: d[i] != "" && |d[i]| <= STEM_MAX)
  }

  /** No repetition, nothing empty, and no eligible stem missing. */
  lemma {:induction false} DistinctStemsAreDistinct(es: seq<Entry>)
    ensures AreStems(DistinctStems(es))
    ensures forall k | 0 <= k < |es| && Eligible(es[k]) && StemOf(es[k]) != "" :: StemOf(es[k]) in DistinctStems(es)
  {
    if es != [] {
      DistinctStemsAreDistinct(es[..|es| - 1]);
      StemsAppend(DistinctStems(es[..|es| - 1]), StemOf(es[|es| - 1]));
    }
  }

  lemma StemsAppend(d: seq<string>, s: string)
    requires AreStems(d)
    ensures s != "" && |s| <= STEM_MAX && s !in d ==> AreStems(d + [s])
  {}

  /** A stem that no entry had has no data. */
  lemma {:induction false} NewStemHasNoData(es: seq<Entry>, stem: string)
    requires stem != "" && stem !in DistinctStems(es)
    ensures LastFitting(es, stem) == ""
  {
    if es != [] {
      NewStemHasNoData(es[..|es| - 1], stem);
    }
  }

  /** The table holds the first 32 of those stems, each with that data. */
  ghost predicate IsImportOf(t: seq<File>, es: seq<Entry>)
  {
    var d := DistinctStems(es);
    && |t| == Min(|d|, FS_MAX_FILES)
    && forall i | 0 <= i < |t| :: t[i] == File(d[i], LastFitting(es, d[i]))
  }

  lemma LastFittingStep(es: seq<Entry>, e: Entry, stem: string)
    ensures LastFitting(es + [e], stem) ==
            if Eligible(e) && StemOf(e) == stem && |e.data| <= FS_MAX_SIZE then e.data else LastFitting(es, stem)
  {
    assert (es + [e])[..|es|] == es;
  }

  lemma DistinctStemsStep(es: seq<Entry>, e: Entry)
    ensures var before := DistinctStems(es);
            DistinctStems(es + [e]) ==
            if Eligible(e) && StemOf(e) != "" && StemOf(e) !in before then before + [StemOf(e)] else before
  {
    assert (es + [e])[..|es|] == es;
  }

  /** The table's own search finds a stem where the list has it. */
  lemma FindStem(t: seq<File>, es: seq<Entry>, s: string)
    requires IsImportOf(t, es)
    ensures Find(t, s) < |t| ==> DistinctStems(es)[Find(t, s)] == s
    ensures forall k | 0 <= k < |t| && DistinctStems(es)[k] == s :: Find(t, s) == k
  {
    var d := DistinctStems(es);
    DistinctStemsAreDistinct(es);
    assert forall k | 0 <= k < |t| :: t[k].name == d[k];
  }

  lemma ImportStep(t: seq<File>, es: seq<Entry>, e: Entry)
    requires IsImportOf(t, es)
    ensures IsImportOf(Imported(t, e), es + [e])
  {
    hide Eligible, StemOf, DistinctStems, LastFitting, Find;
    var d, s := DistinctStems(es), StemOf(e);
    DistinctStemsStep(es, e);
    DistinctStemsAreDistinct(es);
    FindStem(t, es, s);
    forall stem
      ensures LastFitting(es + [e], stem) ==
              if Eligible(e) && StemOf(e) == stem && |e.data| <= FS_MAX_SIZE then e.data else LastFitting(es, stem)
    {
      LastFittingStep(es, e, stem);
    }
    if Eligible(e) && s != "" && s !in d {
      NewStemHasNoData(es, s);
      NewStemIsAppended(t, e);
    } else {
      OldStemIsWritten(t, e);
    }
  }

  /** A stem that the table has, or that the full table cannot take, or that is empty. */
  lemma OldStemIsWritten(t: seq<File>, e: Entry)
    requires Eligible(e) ==> Find(t, StemOf(e)) < |t| || |t| == FS_MAX_FILES || StemOf(e) == ""
    ensures var i := Find(t, StemOf(e));
            Imported(t, e) ==
            if Eligible(e) && i < |t| && |e.data| <= FS_MAX_SIZE then t[i := File(t[i].name, e.data)] else t
  {
    hide Eligible, StemOf, Find;
  }

  lemma NewStemIsAppended(t: seq<File>, e: Entry)
    requires Eligible(e) && StemOf(e) != "" && Find(t, StemOf(e)) == |t|
    ensures Imported(t, e) ==
            if |t| >= FS_MAX_FILES then t
            else t + [File(StemOf(e), if |e.data| <= FS_MAX_SIZE then e.data else "")]
  {
    hide Eligible, StemOf, Find, Created, Written;
    CreateThenWrite(t, StemOf(e), e.data);
  }

  lemma CreateThenWrite(t: seq<File>, s: string, data: seq<char>)
    requires s != "" && |s| <= STEM_MAX && Find(t, s) == |t|
    ensures Written(Created(t, s).0, s, data).0 ==
            if |t| >= FS_MAX_FILES then t else t + [File(s, if |data| <= FS_MAX_SIZE then data else "")]
  {
    assert Stored(s) == s;
    if |t| < FS_MAX_FILES {
      var u := t + [File(s, "")];
      FindIs(u, s, |t|);
      hide Find;
      assert u[|t| := File(s, data)] == t + [File(s, data)];
    }
  }

  /** Whatever the archive holds, the import ends with that table. */
  lemma {:induction false} ImportIsFold(es: seq<Entry>)
    ensures IsImportOf(ImportAll(es), es)
  {
    if es != [] {
      var before := es[..|es| - 1];
      ImportIsFold(before);
      ImportStep(ImportAll(before), before, es[|es| - 1]);
      assert before + [es[|es| - 1]] == es;
    }
  }

  // ---------- the same table, by the names and data of the entries alone ----------

  /** The name is base inside the directory dir, which is empty or ends in '/'. */
  ghost predicate IsPath(name: string, dir: string, base: string)
  {
    name == dir + base && '/' !in base && (dir == "" || dir[|dir| - 1] == '/')
  }

  /** s is what base is cut to: at its first '.', or at 31 characters, or not at all. */
  predicate IsStem(base: string, s: string)
  {
    s <= base && '.' !in s && |s| <= 31 && (s == base || |s| == 31 || base[|s|] == '.')
  }

  /** The entry asks for a file of that name. */
  ghost predicate Provides(e: Entry, s: string)
  {
    e.data != "" && s != "" &&
    exists dir, base :: IsPath(e.name, dir, base) && base != "shell.bin" && IsStem(base, s)
  }

  lemma {:induction false} BasenameOfPath(dir: string, base: string)
    requires IsPath(dir + base, dir, base)
    ensures Basename(dir + base) == base
    decreases |dir|
  {
    var name := dir + base;
    if dir == "" {
      assert name == base;
    } else {
      assert name[|dir| - 1] == '/';
      assert name[1..] == dir[1..] + base;
      BasenameOfPath(dir[1..], base);
    }
  }

  lemma {:induction false} PathOfBasename(name: string) returns (dir: string)
    ensures IsPath(name, dir, Basename(name))
    decreases |name|
  {
    if '/' !in name {
      dir := "";
      assert name == dir + name;
    } else {
      dir := PathOfBasename(name[1..]);
      dir := [name[0]] + dir;
      assert name == dir + Basename(name);
    }
  }

  lemma {:induction false} StemIsStem(base: string, s: string)
    ensures IsStem(base, s) <==> s == Stem(base, 31)
  {
    if IsStem(base, s) {
      assert forall k | 0 <= k < |s| :: s[k] in s;
      StemIs(base, |s|, 31);
    }
    StemEnds(base, 31);
  }

  lemma {:induction false} StemEnds(base: string, room: nat)
    ensures var s := Stem(base, room);
            s == base || |s| == room || base[|s|] == '.'
  {
    if base != "" && base[0] != '.' && room > 0 {
      StemEnds(base[1..], room - 1);
      assert base == [base[0]] + base[1..];
    }
  }

  lemma ProvidesIsEligible(e: Entry, s: string)
    ensures Provides(e, s) <==> Eligible(e) && StemOf(e) == s && s != ""
  {
    hide Basename, Stem;
    if Provides(e, s) {
      var dir, base :| IsPath(e.name, dir, base) && base != "shell.bin" && IsStem(base, s);
      BasenameOfPath(dir, base);
      StemIsStem(base, s);
    }
    if Eligible(e) && StemOf(e) == s && s != "" {
      var dir := PathOfBasename(e.name);
      StemIsStem(Basename(e.name), s);
      assert IsPath(e.name, dir, Basename(e.name));
    }
  }

  /** What one entry does to a table that has no nameless file. */
  lemma ImportOfFile(t: seq<File>, dir: string, base: string, data: seq<char>, s: string)
    requires '/' !in base && (dir == "" || dir[|dir| - 1] == '/') && IsStem(base, s)
    requires forall f | f in t :: f.name != ""
    ensures var u := Imported(t, Entry(dir + base, data));
            && (base == "shell.bin" || base == "" || data == "" || s == "" ==> u == t)
            && (base != "shell.bin" && data != "" && s != "" ==>
                  && (s !in FileNames(t) && |t| < 32 ==> u == t + [File(s, if |data| <= 4096 then data else "")])
                  && (s !in FileNames(t) && |t| >= 32 ==> u == t)
                  && forall i | 0 <= i < |t| && t[i].name == s && s !in FileNames(t[..i]) ::
                       u == if |data| <= 4096 then t[i := File(s, data)] else t)
  {
    hide Basename, Stem, Find;
    BasenameOfPath(dir, base);
    StemIsStem(base, s);
    var e := Entry(dir + base, data);
    assert Stored(s) == s;
    FindByName(t, s);
    if Eligible(e) && s != "" && Find(t, s) == |t| {
      NewStemIsAppended(t, e);
    }
  }

  function FileNames(t: seq<File>): set<string>
  {
    set f | f in t :: f.name
  }

  lemma FindByName(t: seq<File>, s: string)
    ensures s !in FileNames(t) <==> Find(t, s) == |t|
    ensures forall i | 0 <= i < |t| && t[i].name == s && s !in FileNames(t[..i]) :: Find(t, s) == i
    ensures (forall f | f in t :: f.name != "") ==> Find(t, "") == |t|
  {
    forall i | 0 <= i < |t| && t[i].name == s && s !in FileNames(t[..i])
      ensures Find(t, s) == i
    {
      forall k | 0 <= k < i
        ensures t[k].name != s
      {
        assert t[..i][k] in t[..i] && t[..i][k].name in FileNames(t[..i]);
      }
      FindIs(t, s, i);
    }
    if Find(t, s) < |t| {
      assert t[Find(t, s)] in t;
    }
    if Find(t, "") < |t| {
      assert t[Find(t, "")] in t;
    }
  }

  /** Entry k is the first that asks for this name. */
  ghost predicate FirstToProvide(es: seq<Entry>, s: string, k: nat)
  {
    k < |es| && Provides(es[k], s) && forall j | 0 <= j < k :: !Provides(es[j], s)
  }

  /** Entry k is the last that asks for this name with data that fits. */
  ghost predicate LastToFill(es: seq<Entry>, s: string, k: nat)
  {
    && k < |es| && Provides(es[k], s) && |es[k].data| <= 4096
    && forall j | k < j < |es| :: !(Provides(es[j], s) && |es[j].data| <= 4096)
  }

  /** These are the names asked for, in the order in which they were first asked for. */
  ghost predicate InOrderOfRequest(es: seq<Entry>, d: seq<string>)
  {
    && (forall i | 0 <= i < |d| :: IsProvided(es, d[i]))
    && (forall i, j, k: nat, l: nat | 0 <= i < j < |d| ::
          FirstToProvide(es, d[i], k) && FirstToProvide(es, d[j], l) ==> k < l)
    && (forall s | IsProvided(es, s) :: s in d)
  }

  ghost predicate IsProvided(es: seq<Entry>, s: string)
  {
    exists k: nat :: FirstToProvide(es, s, k)
  }

  /** One more entry: the first to provide a name stays the first. */
  lemma FirstStep(es: seq<Entry>, e: Entry, s: string)
    ensures forall k: nat :: FirstToProvide(es + [e], s, k) <==>
              FirstToProvide(es, s, k) || (k == |es| && Provides(e, s) && !IsProvided(es, s))
  {
    hide Provides;
    var fs := es + [e];
    assert forall k | 0 <= k < |es| :: fs[k] == es[k];
    if k: nat :| k < |es| && Provides(es[k], s) {
      FirstAmong(es, s, k);
    }
  }

  lemma {:induction false} FirstAmong(es: seq<Entry>, s: string, k: nat)
    requires k < |es| && Provides(es[k], s)
    ensures IsProvided(es, s)
  {
    hide Provides;
    if j :| 0 <= j < k && Provides(es[j], s) {
      FirstAmong(es, s, j);
    } else {
      assert FirstToProvide(es, s, k);
    }
  }

  lemma RequestStep(es: seq<Entry>, d: seq<string>, e: Entry, s: string)
    requires InOrderOfRequest(es, d)
    requires forall x :: Provides(e, x) ==> x == s
    ensures InOrderOfRequest(es + [e], if Provides(e, s) && s !in d then d + [s] else d)
  {
    var c := if Provides(e, s) && s !in d then d + [s] else d;
    hide Provides;
    forall x
      ensures forall k: nat :: FirstToProvide(es + [e], x, k) <==>
                FirstToProvide(es, x, k) || (k == |es| && Provides(e, x) && !IsProvided(es, x))
    {
      FirstStep(es, e, x);
    }
    assert forall x, k: nat | FirstToProvide(es, x, k) :: k < |es|;
    hide FirstToProvide;
    forall x
      ensures IsProvided(es + [e], x) <==> IsProvided(es, x) || Provides(e, x)
    {
      if k: nat :| FirstToProvide(es, x, k) {
        assert FirstToProvide(es + [e], x, k);
      } else if Provides(e, x) {
        assert FirstToProvide(es + [e], x, |es|);
      }
    }
  }

  /** Whatever entries there are. */
  lemma {:induction false} ImportedNames(es: seq<Entry>)
    ensures InOrderOfRequest(es, DistinctStems(es))
    decreases |es|
  {
    if es != [] {
      var n := |es| - 1;
      ImportedNames(es[..n]);
      DistinctStemsStep(es[..n], es[n]);
      assert es[..n] + [es[n]] == es;
      forall s
        ensures Provides(es[n], s) <==> Eligible(es[n]) && StemOf(es[n]) == s && s != ""
      {
        ProvidesIsEligible(es[n], s);
      }
      hide InOrderOfRequest, Provides;
      RequestStep(es[..n], DistinctStems(es[..n]), es[n], StemOf(es[n]));
    }
  }

  lemma {:induction false} ImportedData(es: seq<Entry>, s: string)
    requires s != ""
    ensures forall k: nat | LastToFill(es, s, k) :: k < |es| && LastFitting(es, s) == es[k].data
    ensures (forall k: nat :: !LastToFill(es, s, k)) ==> LastFitting(es, s) == ""
    decreases |es|
  {
    hide Provides;
    if es != [] {
      var n := |es| - 1;
      var before, e := es[..n], es[n];
      ImportedData(before, s);
      ProvidesIsEligible(e, s);
      forall k: nat
        ensures LastToFill(es, s, k) <==>
                if Provides(e, s) && |e.data| <= 4096 then k == n else k < n && LastToFill(before, s, k)
      {
        if k < n {
          assert before[k] == es[k] && forall j | k < j < n :: before[j] == es[j];
        }
      }
      if Provides(e, s) && |e.data| <= 4096 {
        assert LastToFill(es, s, n);
      } else if k: nat :| LastToFill(before, s, k) {
        assert LastToFill(es, s, k);
      }
    }
  }

  /**
   * The table that the import must leave, by the entries' names and data: no name twice; every name asked for
   * is there, unless 32 others were asked for before it; each file holds the last data that fits, or nothing.
   */
  ghost predicate IsBootTable(t: seq<File>, es: seq<Entry>)
  {
    && |t| <= 32
    && (forall i | 0 <= i < |t| :: IsProvided(es, t[i].name) && HoldsLastData(t[i], es))
    && (forall i, j, k: nat, l: nat | 0 <= i < j < |t| ::
          FirstToProvide(es, t[i].name, k) && FirstToProvide(es, t[j].name, l) ==> k < l)
    && (forall s | IsProvided(es, s) :: s in FileNames(t) || (|t| == 32 && CameLater(t, es, s)))
  }

  ghost predicate HoldsLastData(f: File, es: seq<Entry>)
  {
    && (forall k: nat | LastToFill(es, f.name, k) :: k < |es| && f.data == es[k].data)
    && ((forall k: nat :: !LastToFill(es, f.name, k)) ==> f.data == "")
  }

  /** Every name in the table was asked for before this one. */
  ghost predicate CameLater(t: seq<File>, es: seq<Entry>, s: string)
  {
    forall i, k: nat, l: nat | 0 <= i < |t| && FirstToProvide(es, t[i].name, l) && FirstToProvide(es, s, k) :: l < k
  }

  lemma BootTableIs(es: seq<Entry>)
    ensures IsBootTable(ImportAll(es), es)
  {
    hide FirstToProvide, LastToFill, DistinctStems, LastFitting, ImportAll, IsProvided;
    var t, d := ImportAll(es), DistinctStems(es);
    ImportIsFold(es);
    ImportedNames(es);
    DistinctStemsAreDistinct(es);
    forall i | 0 <= i < |t|
      ensures HoldsLastData(t[i], es)
    {
      LastIsAnEntry(es, d[i]);
      ImportedData(es, d[i]);
    }
    forall s | IsProvided(es, s)
      ensures s in FileNames(t) || (|t| == 32 && CameLater(t, es, s))
    {
      var j :| 0 <= j < |d| && d[j] == s;
      if j < |t| {
        assert t[j] in t && t[j].name == s;
      }
    }
  }

  lemma LastIsAnEntry(es: seq<Entry>, s: string)
    ensures forall k: nat | LastToFill(es, s, k) :: k < |es|
  {}

  /** The image of the Makefile: shell.bin is passed over, and matrix.fxe becomes "matrix". */
  lemma MakefileImage(shell: seq<char>, matrix: seq<char>)
    requires 0 < |matrix| <= 4096
    ensures ImportAll([Entry("shell.bin", shell), Entry("matrix.fxe", matrix)]) == [File("matrix", matrix)]
  {
    var a, b := Entry("shell.bin", shell), Entry("matrix.fxe", matrix);
    ShellIsPassedOver([], shell);
    MatrixIsImported(matrix);
    hide Imported;
    assert [a, b] == [a] + [b] && [a] == [] + [a];
    ImportAllAppend([], [a]);
    ImportAllAppend([a], [b]);
  }

  lemma ShellIsPassedOver(t: seq<File>, shell: seq<char>)
    ensures Imported(t, Entry("shell.bin", shell)) == t
  {
    NoSlash("shell.bin");
  }

  lemma MatrixIsImported(matrix: seq<char>)
    requires 0 < |matrix| <= 4096
    ensures Imported([], Entry("matrix.fxe", matrix)) == [File("matrix", matrix)]
  {
    hide Imported, Basename;
    assert IsStem("matrix.fxe", "matrix");
    assert "" + "matrix.fxe" == "matrix.fxe";
    assert |"matrix.fxe"| == 10 && |"shell.bin"| == 9;
    ImportOfFile([], "", "matrix.fxe", matrix, "matrix");
    assert FileNames([]) == {};
  }

  /** An entry whose data the module does not hold is not one of the entries, nor is anything behind it. */
  lemma CutShortEntry(m: Memory, addr: nat, end: Word)
    requires addr + BLOCK <= end && WellFormedArchive(m, addr, end) && addr + BLOCK < WORD_LIMIT
    requires addr + 512 + KernelSizeAt(m, addr) > end
    ensures Entries(m, addr, end) == []
  {
    hide KernelSizeAt;
    WalkStep(m, addr, end);
    if m[addr] != NUL {
      WalkStep(m, NextHeader(addr, KernelSizeAt(m, addr)), end);
    }
  }

  // ---------- kernel_main's loop ----------

  /** The position after the last '/' of the header's name field. */
  method FindBasename(field: seq<char>) returns (start: nat)
    requires IsCString(field)
    ensures start <= |Text(field)| && Text(field)[start..] == Basename(Text(field))
  {
    hide Text, Basename;
    ghost var name := Text(field);
    start := 0;
    var p := 0;
    while field[p] != NUL
      invariant 0 <= start <= p <= |name|
      invariant Basename(name[start..]) == Basename(name)
      invariant '/' !in name[start..p]
      decreases |name| - p
    {
      if field[p] == '/' {
        SkipToSlash(name, start, p);
        start := p + 1;
      }
      p := p + 1;
    }
    assert name[start..p] == name[start..];
    NoSlash(name[start..]);
  }

  lemma NoSlash(s: string)
    requires '/' !in s
    ensures Basename(s) == s
  {}

  lemma {:induction false} SkipToSlash(s: string, a: nat, p: nat)
    requires a <= p < |s| && s[p] == '/' && '/' !in s[a..p]
    ensures Basename(s[a..]) == Basename(s[p + 1..])
    decreases p - a
  {
    assert s[a..][1..] == s[a + 1..];
    assert '/' in s[a..] by { assert s[a..][p - a] == '/'; }
    if a < p {
      assert s[a..p][1..] == s[a + 1..p];
      SkipToSlash(s, a + 1, p);
    }
  }

  /** The loop that fills `short_name`. */
  method CutStem(name: seq<char>) returns (shortName: seq<char>)
    requires IsCString(name)
    ensures IsCString(shortName) && Text(shortName) == Stem(Text(name), STEM_MAX)
  {
    hide Text, Stem;
    ghost var base := Text(name);
    var buffer := new char[32];
    var n := 0;
    while name[n] != NUL && name[n] != '.' && n < 31
      invariant 0 <= n <= |base| && n <= 31
      invariant forall k | 0 <= k < n :: buffer[k] == base[k] != '.'
      decreases |base| - n
    {
      buffer[n] := name[n];
      n := n + 1;
    }
    StemIs(base, n, STEM_MAX);
    buffer[n] := NUL;
    shortName := buffer[..];
    assert shortName[..n] == base[..n];
    TextIsPrefix(shortName, n);
  }

  lemma {:induction false} StemIs(base: string, n: nat, room: nat)
    requires n <= |base| && n <= room && forall k | 0 <= k < n :: base[k] != '.'
    requires n == |base| || n == room || base[n] == '.'
    ensures Stem(base, room) == base[..n]
  {
    if n > 0 {
      StemIs(base[1..], n - 1, room - 1);
      assert base[..n] == [base[0]] + base[1..][..n - 1];
    }
  }

  method ImportArchive(mem: array<char>, ramfsStart: Word, ramfsEnd: Word, fs: FileTable)
    requires mem.Length == WORD_LIMIT && fs.Valid() && fs.Files() == []
    requires ramfsStart + BLOCK < WORD_LIMIT && WellFormedArchive(mem[..], ramfsStart, ramfsEnd)
    modifies fs.storage
    ensures fs.Valid()
    ensures fs.Files() == ImportAll(Entries(mem[..], ramfsStart, ramfsEnd))
    ensures IsImportOf(fs.Files(), Entries(mem[..], ramfsStart, ramfsEnd))
    ensures IsBootTable(fs.Files(), Entries(mem[..], ramfsStart, ramfsEnd))
  {
    hide WellFormedArchive, Entries, KernelSizeAt, NextHeader, EntryAt, DataFits, Imported, IsImportOf, IsBootTable;
    hide ImportAll, FileTable.Valid, FileTable.Files;
    assert ImportAll([]) == [] by {
      NothingImported();
    }
    ghost var m := mem[..];
    ghost var all := Entries(m, ramfsStart, ramfsEnd);
    ghost var done: seq<Entry> := [];
    var addr: Word := ramfsStart;
    while Wrap(addr as int + 512) <= ramfsEnd
      invariant mem[..] == m && fs.Valid()
      invariant addr + BLOCK < WORD_LIMIT && WellFormedArchive(m, addr, ramfsEnd)
      invariant done + Entries(m, addr, ramfsEnd) == all
      invariant fs.Files() == ImportAll(done)
      decreases WORD_LIMIT - addr
    {
      WalkStep(m, addr, ramfsEnd);
      if mem[addr] == NUL {
        break;
      }
      var size := ImportEntry(mem, addr, ramfsEnd, fs);
      ghost var here := if DataFits(m, addr, ramfsEnd) then [EntryAt(m, addr)] else [];
      ghost var rest := Entries(m, NextHeader(addr, size), ramfsEnd);
      ImportAllAppend(done, here);
      assert done + (here + rest) == (done + here) + rest;
      done := done + here;
      Advance(addr, size);
      addr := Wrap(addr as int + (512 + Wrap(size as int + 511) / 512 * 512));
    }
    WalkStep(m, addr, ramfsEnd);
    assert done == all;
    ImportIsFold(all);
    BootTableIs(all);
  }

  /** The same on an archive that was written file by file. */
  method ImportWrittenArchive(mem: array<char>, ramfsStart: Word, ramfsEnd: Word, fs: FileTable,
                              ghost files: seq<TarFile>)
    requires mem.Length == WORD_LIMIT && fs.Valid() && fs.Files() == []
    requires HoldsArchive(mem[..], ramfsStart, ramfsEnd, files)
    modifies fs.storage
    ensures fs.Valid()
    ensures IsBootTable(fs.Files(), seq(|files|, i requires 0 <= i < |files| => Entry(files[i].name, files[i].data)))
  {
    hide WellFormedArchive, Entries, IsImportOf, IsBootTable, HoldsArchive;
    ArchiveIsBelow(mem[..], ramfsStart, ramfsEnd, files);
    WrittenArchiveEntries(mem[..], ramfsStart, ramfsEnd, files);
    EntriesOfAt(files);
    ImportArchive(mem, ramfsStart, ramfsEnd, fs);
  }

  lemma NothingImported()
    ensures ImportAll([]) == []
  {}

  lemma ArchiveIsBelow(m: Memory, start: nat, end: nat, files: seq<TarFile>)
    requires HoldsArchive(m, start, end, files)
    ensures start + BLOCK < WORD_LIMIT && forall f | f in files :: f.Valid()
  {}

  lemma {:induction false} EntriesOfAt(files: seq<TarFile>)
    requires forall f | f in files :: f.Valid()
    ensures EntriesOf(files) == seq(|files|, i requires 0 <= i < |files| => Entry(files[i].name, files[i].data))
  {
    if files != [] {
      EntriesOfAt(files[1..]);
    }
  }

  lemma Advance(addr: nat, size: Word)
    requires NextHeader(addr, size) < WORD_LIMIT
    ensures Wrap(addr + (512 + Wrap(size as int + 511) / 512 * 512)) == NextHeader(addr, size)
    ensures addr < NextHeader(addr, size)
  {
    RoundUpFacts(size);
  }

  /** The loop body up to the step to the next header. */
  method ImportEntry(mem: array<char>, addr: nat, ramfsEnd: Word, fs: FileTable) returns (size: Word)
    requires mem.Length == WORD_LIMIT && fs.Valid() && addr + BLOCK < WORD_LIMIT
    requires addr + BLOCK + KernelSizeAt(mem[..], addr) < WORD_LIMIT
    requires NUL in mem[..][addr..addr + NAME_FIELD]
    modifies fs.storage
    ensures fs.Valid() && mem[..] == old(mem[..])
    ensures size == KernelSizeAt(mem[..], addr)
    ensures fs.Files() == if DataFits(mem[..], addr, ramfsEnd)
                          then Imported(old(fs.Files()), EntryAt(mem[..], addr)) else old(fs.Files())
  {
    hide Imported, Text, KernelSizeAt, FileTable.Valid, FileTable.Files;
    size := ReadSize(mem, addr);
    assert mem[addr..addr + NAME_FIELD] == mem[..][addr..addr + NAME_FIELD];
    assert mem[addr + BLOCK..addr + BLOCK + size] == mem[..][addr + BLOCK..addr + BLOCK + size];
    ImportFile(mem[addr..addr + NAME_FIELD], mem[addr + BLOCK..addr + BLOCK + size], size,
               Wrap(Wrap(addr + BLOCK) as int + size) <= ramfsEnd, fs);
  }

  method ImportFile(field: seq<char>, data: seq<char>, size: Word, fits: bool, fs: FileTable)
    requires IsCString(field) && |data| == size && fs.Valid()
    modifies fs.storage
    ensures fs.Valid()
    ensures fs.Files() == if fits then Imported(old(fs.Files()), Entry(Text(field), data)) else old(fs.Files())
  {
    hide Text, Basename, Stem;
    var start := FindBasename(field);
    var realFilename := field[start..];
    ghost var name := Text(field);
    assert field == name[..start] + realFilename;
    TextConcat(name[..start], realFilename);
    assert Text(realFilename) == name[start..];
    assert realFilename[0] == NUL <==> Text(realFilename) == "" by {
      TextStart(realFilename);
    }
    TextOfLiteral("shell.bin", []);
    assert "shell.bin" + [NUL] + [] == "shell.bin" + [NUL];
    var diff := StrCmp(realFilename, "shell.bin" + [NUL]);
    if diff != 0 && realFilename[0] != NUL && size > 0 {
      if fits {
        var shortName := CutStem(realFilename);
        var code := fs.Create(To(shortName));
        code := fs.Write(To(shortName), To(data), size);
        assert data[..size] == data;
      }
    }
  }

  lemma TextStart(s: seq<char>)
    requires IsCString(s)
    ensures s[0] == NUL <==> Text(s) == ""
  {}
}
