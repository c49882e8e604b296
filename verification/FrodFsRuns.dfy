/** The file table as a bounded map from names to contents, over every run of creates and writes. */
module FrodFsRuns {
  import opened Words
  import opened FrodFs

  datatype Op = Create(name: string) | Write(name: string, data: seq<char>)

  /** The table's own step: the functions that the methods of FileTable are proved against. */
  function Step(t: seq<File>, op: Op): (r: (seq<File>, int))
  {
    match op
    case Create(name) => Created(t, name)
    case Write(name, data) => Written(t, name, data)
  }

  function Run(t: seq<File>, ops: seq<Op>): (r: (seq<File>, seq<int>))
    decreases |ops|
  {
    if ops == [] then (t, [])
    else
      var (u, code) := Step(t, ops[0]);
      var (v, codes) := Run(u, ops[1..]);
      (v, [code] + codes)
  }

  /** The same operations on a map of at most 32 names. */
  function MapStep(m: map<string, seq<char>>, op: Op): (r: (map<string, seq<char>>, int))
  {
    match op
    case Create(name) =>
      if name == "" then (m, -1)
      else if name in m then (m, -2)
      else if |m| < FS_MAX_FILES then (m[name := ""], 0)
      else (m, -3)
    case Write(name, data) =>
      if |data| > FS_MAX_SIZE then (m, -1)
      else if name in m then (m[name := data], 0)
      else (m, -2)
  }

  function MapRun(m: map<string, seq<char>>, ops: seq<Op>): (r: (map<string, seq<char>>, seq<int>))
    decreases |ops|
  {
    if ops == [] then (m, [])
    else
      var (n, code) := MapStep(m, ops[0]);
      var (o, codes) := MapRun(n, ops[1..]);
      (o, [code] + codes)
  }

  /** What a lookup of each name would find. */
  function AsMap(t: seq<File>): map<string, seq<char>>
  {
    map n | n in NameSet(t) :: t[Find(t, n)].data
  }

  function NameSet(t: seq<File>): (names: set<string>)
    ensures forall n :: n in names <==> Find(t, n) < |t|
  {
    if t == [] then {} else {t[0].name} + NameSet(t[1..])
  }

  ghost predicate Distinct(t: seq<File>)
  {
    forall i, j | 0 <= i < j < |t| :: t[i].name != t[j].name
  }

  /** What a table can look like. */
  ghost predicate WellFormed(t: seq<File>)
  {
    && |t| <= FS_MAX_FILES
    && Distinct(t)
    && forall f | f in t :: 0 < |f.name| < FS_MAX_NAME && |f.data| <= FS_MAX_SIZE
  }

  predicate ShortNames(ops: seq<Op>)
  {
    forall op | op in ops :: op.Create? ==> |op.name| < FS_MAX_NAME
  }

  lemma {:induction false} MapSize(t: seq<File>)
    requires Distinct(t)
    ensures |NameSet(t)| == |t| && |AsMap(t)| == |t|
  {
    assert AsMap(t).Keys == NameSet(t);
    if t != [] {
      MapSize(t[1..]);
      FindIs(t[1..], t[0].name, |t| - 1);
    }
  }

  lemma FindAppend(t: seq<File>, f: File, n: string)
    ensures Find(t + [f], n) == if Find(t, n) < |t| || n == f.name then Find(t, n) else |t| + 1
  {
    var i := Find(t, n);
    FindIs(t + [f], n, if i < |t| || n == f.name then i else |t| + 1);
  }

  lemma FindUpdate(t: seq<File>, i: nat, data: seq<char>, n: string)
    requires i < |t|
    ensures Find(t[i := File(t[i].name, data)], n) == Find(t, n)
  {
    FindIs(t[i := File(t[i].name, data)], n, Find(t, n));
  }

  lemma MapAppend(t: seq<File>, f: File)
    requires Find(t, f.name) == |t|
    ensures AsMap(t + [f]) == AsMap(t)[f.name := f.data]
  {
    forall n
      ensures Find(t + [f], n) == if Find(t, n) < |t| || n == f.name then Find(t, n) else |t| + 1
    {
      FindAppend(t, f, n);
    }
  }

  lemma CreateKeepsWellFormed(t: seq<File>, name: string)
    requires WellFormed(t) && |name| < FS_MAX_NAME
    ensures WellFormed(Created(t, name).0)
  {
    assert Stored(name) == name;
    var f := File(name, "");
    assert forall g | g in t + [f] :: g in t || g == f;
  }

  lemma ShortNameIsStored(name: string)
    requires |name| < FS_MAX_NAME
    ensures Stored(name) == name
  {}

  lemma CreateRefinesMap(t: seq<File>, name: string)
    requires WellFormed(t) && |name| < FS_MAX_NAME
    ensures (AsMap(Created(t, name).0), Created(t, name).1) == MapStep(AsMap(t), Create(name))
  {
    MapSize(t);
    FindIsLookup(t, name);
    hide AsMap, Find, WellFormed, Stored, NameSet;
    ShortNameIsStored(name);
    if Created(t, name).1 == 0 {
      MapAppend(t, File(name, ""));
    }
  }

  lemma MapUpdate(t: seq<File>, i: nat, data: seq<char>)
    requires i < |t| && Find(t, t[i].name) == i
    ensures AsMap(t[i := File(t[i].name, data)]) == AsMap(t)[t[i].name := data]
  {
    forall n
      ensures Find(t[i := File(t[i].name, data)], n) == Find(t, n)
    {
      FindUpdate(t, i, data, n);
    }
  }

  lemma WriteKeepsWellFormed(t: seq<File>, name: string, data: seq<char>)
    requires WellFormed(t)
    ensures WellFormed(Written(t, name, data).0)
  {
    var u := Written(t, name, data).0;
    assert forall k | 0 <= k < |t| :: u[k].name == t[k].name;
    forall f | f in u
      ensures 0 < |f.name| < FS_MAX_NAME && |f.data| <= FS_MAX_SIZE
    {
      var k :| 0 <= k < |u| && u[k] == f;
      assert t[k] in t;
    }
  }

  lemma WriteRefinesMap(t: seq<File>, name: string, data: seq<char>)
    requires WellFormed(t)
    ensures (AsMap(Written(t, name, data).0), Written(t, name, data).1) == MapStep(AsMap(t), Write(name, data))
  {
    if Written(t, name, data).1 == 0 {
      MapUpdate(t, Find(t, name), data);
    }
  }

  /** One step of the table is one step of the map, result code included. */
  lemma StepRefinesMap(t: seq<File>, op: Op)
    requires WellFormed(t) && ShortNames([op])
    ensures WellFormed(Step(t, op).0)
    ensures (AsMap(Step(t, op).0), Step(t, op).1) == MapStep(AsMap(t), op)
  {
    assert op in [op];
    match op {
      case Create(name) =>
        CreateKeepsWellFormed(t, name);
        CreateRefinesMap(t, name);
      case Write(name, data) =>
        WriteKeepsWellFormed(t, name, data);
        WriteRefinesMap(t, name, data);
    }
  }

  /** Over every run whose created names have at most 31 characters, the table is the map. */
  lemma {:induction false} RunRefinesMap(t: seq<File>, ops: seq<Op>)
    requires WellFormed(t) && ShortNames(ops)
    ensures WellFormed(Run(t, ops).0)
    ensures (AsMap(Run(t, ops).0), Run(t, ops).1) == MapRun(AsMap(t), ops)
    decreases |ops|
  {
    if ops != [] {
      assert ops[0] in ops;
      StepRefinesMap(t, ops[0]);
      RunRefinesMap(Step(t, ops[0]).0, ops[1..]);
    }
  }

  /** Find on a well-formed table is lookup in the map, so read's result is decided by the map. */
  lemma FindIsLookup(t: seq<File>, name: string)
    requires WellFormed(t)
    ensures Find(t, name) < |t| <==> name in AsMap(t)
    ensures name in AsMap(t) ==> t[Find(t, name)].data == AsMap(t)[name]
  {}

  /** Operation k was a write to `name` that reported success. */
  predicate WroteTo(op: Op, code: int, name: string)
  {
    op.Write? && op.name == name && code == 0
  }

  lemma RunLength(m: map<string, seq<char>>, ops: seq<Op>)
    ensures |MapRun(m, ops).1| == |ops|
    decreases |ops|
  {
    if ops != [] {
      RunLength(MapStep(m, ops[0]).0, ops[1..]);
    }
  }

  /** Without a successful write a file keeps its contents, whatever else happens. */
  lemma {:induction false} UnwrittenFilesKeep(m: map<string, seq<char>>, ops: seq<Op>, name: string)
    requires name in m
    requires var codes := MapRun(m, ops).1;
             forall j | 0 <= j < |ops| && j < |codes| :: !WroteTo(ops[j], codes[j], name)
    ensures name in MapRun(m, ops).0 && MapRun(m, ops).0[name] == m[name]
    decreases |ops|
  {
    if ops != [] {
      var n := MapStep(m, ops[0]).0;
      RunLength(n, ops[1..]);
      var codes := MapRun(m, ops).1;
      assert !WroteTo(ops[0], codes[0], name);
      assert forall j | 0 <= j < |ops| - 1 :: ops[1..][j] == ops[j + 1] && MapRun(n, ops[1..]).1[j] == codes[j + 1];
      UnwrittenFilesKeep(n, ops[1..], name);
    }
  }

  /** After any run a file holds what its last successful write gave it. */
  lemma {:induction false} LastSuccessfulWriteWins(m: map<string, seq<char>>, ops: seq<Op>, k: nat, name: string)
    requires k < |ops| == |MapRun(m, ops).1|
    requires WroteTo(ops[k], MapRun(m, ops).1[k], name)
    requires forall j | k < j < |ops| :: !WroteTo(ops[j], MapRun(m, ops).1[j], name)
    ensures name in MapRun(m, ops).0 && MapRun(m, ops).0[name] == ops[k].data
    decreases |ops|
  {
    var n := MapStep(m, ops[0]).0;
    RunLength(n, ops[1..]);
    var codes, later := MapRun(m, ops).1, MapRun(n, ops[1..]).1;
    assert forall j | 0 <= j < |ops| - 1 :: ops[1..][j] == ops[j + 1] && later[j] == codes[j + 1];
    if k == 0 {
      UnwrittenFilesKeep(n, ops[1..], name);
    } else {
      LastSuccessfulWriteWins(n, ops[1..], k - 1, name);
    }
  }

  /**
   * From an empty table, over every run of short names: a read gives the first min(size, max) bytes of the
   * last successful write to that name and leaves the rest of the buffer alone.
   */
  lemma ReadGivesLastWrite(ops: seq<Op>, k: nat, name: string, maxSize: Word, before: seq<char>, outBefore: Word,
                           code: int, after: seq<char>, outAfter: Word)
    requires ShortNames(ops) && k < |ops| == |Run([], ops).1|
    requires WroteTo(ops[k], Run([], ops).1[k], name)
    requires forall j | k < j < |ops| :: !WroteTo(ops[j], Run([], ops).1[j], name)
    requires ReadResult(Run([], ops).0, name, maxSize, before, outBefore, code, after, outAfter)
    ensures code == 0 && outAfter == Min(|ops[k].data|, maxSize) <= |before|
    ensures after == ops[k].data[..outAfter] + before[outAfter..]
  {
    RunRefinesMap([], ops);
    LastSuccessfulWriteWins(AsMap([]), ops, k, name);
    FindIsLookup(Run([], ops).0, name);
  }

  /** Whether a read succeeds is decided by the map; one that fails changes nothing. */
  lemma ReadIsDecidedByMap(t: seq<File>, name: string, maxSize: Word, before: seq<char>, outBefore: Word,
                           code: int, after: seq<char>, outAfter: Word)
    requires WellFormed(t) && ReadResult(t, name, maxSize, before, outBefore, code, after, outAfter)
    ensures code == 0 <==> name in AsMap(t)
    ensures name !in AsMap(t) ==> code == -2 && after == before && outAfter == outBefore
    ensures name in AsMap(t) ==> outAfter == Min(|AsMap(t)[name]|, maxSize) <= |before|
    ensures name in AsMap(t) ==> after == AsMap(t)[name][..outAfter] + before[outAfter..]
  {
    FindIsLookup(t, name);
  }

  /** Exactly when a successful create leaves stored names distinct; the caller can test it. */
  lemma CreateKeepsNamesDistinct(t: seq<File>, name: string)
    requires Distinct(t) && Created(t, name).1 == 0
    ensures Distinct(Created(t, name).0) <==> Find(t, Stored(name)) == |t|
  {
    var u := Created(t, name).0;
    var i := Find(t, Stored(name));
    assert u[|t|].name == Stored(name) && forall k | 0 <= k < |t| :: u[k] == t[k];
    if i < |t| {
      assert u[i].name == u[|t|].name;
    }
  }

  /** The full name is compared but a shortened one is stored: two equal names can be stored. */
  lemma LongNamesRepeat(name: string)
    requires |name| >= FS_MAX_NAME
    ensures var t := Run([], [Create(name), Create(name)]).0;
            |t| == 2 && t[0].name == t[1].name
  {
    var ops := [Create(name), Create(name)];
    var f := File(Stored(name), "");
    assert |f.name| != |name|;
    FindIs([f], name, 1);
    assert [] + [f] == [f] && [f] + [f] == [f, f];
    assert Created([], name) == ([f], 0) && Created([f], name) == ([f, f], 0);
    assert ops[1..] == [Create(name)] && ops[1..][1..] == [];
    assert Run([f], ops[1..]).0 == Run([f, f], []).0;
  }

  // ---------- the listing ----------

  function Names(t: seq<File>): seq<string>
  {
    seq(|t|, i requires 0 <= i < |t| => t[i].name)
  }

  function Lines(names: seq<string>): string
  {
    if names == [] then "" else names[0] + "\n" + Lines(names[1..])
  }

  /** Splits newline-terminated lines. */
  function ParseLines(s: string, line: string): seq<string>
  {
    if s == [] then []
    else if s[0] == '\n' then [line] + ParseLines(s[1..], "")
    else ParseLines(s[1..], line + [s[0]])
  }

  /** How many leading names pass the fit test one after the other. */
  function FitCount(t: seq<File>, idx: nat, maxBytes: nat): (n: nat)
    ensures n <= |t|
  {
    if t == [] || idx + |t[0].name| + 2 >= maxBytes then 0
    else 1 + FitCount(t[1..], idx + |t[0].name| + 1, maxBytes)
  }

  lemma LinesStep(t: seq<File>, k: nat)
    requires 0 < k <= |t|
    ensures Lines(Names(t)[..k]) == t[0].name + "\n" + Lines(Names(t[1..])[..k - 1])
  {
    assert Names(t)[..k][0] == t[0].name;
    assert Names(t)[..k][1..] == Names(t[1..])[..k - 1];
  }

  /** The first n names fit one after the other, and the next one does not. */
  ghost predicate IsLongestFit(t: seq<File>, idx: nat, maxBytes: nat, n: nat)
    requires n <= |t|
  {
    && (forall k | 0 <= k < n :: FitsAt(t, idx, maxBytes, k))
    && (n < |t| ==> !FitsAt(t, idx, maxBytes, n))
  }

  /** The fit test for name k after the k names before it. */
  predicate FitsAt(t: seq<File>, idx: nat, maxBytes: nat, k: nat)
    requires k < |t|
  {
    idx + |Lines(Names(t)[..k])| + |t[k].name| + 2 < maxBytes
  }

  /** The listing is the names of the longest prefix that fits, in slot order. */
  lemma {:induction false} ListingIsLongestFittingPrefix(t: seq<File>, idx: nat, maxBytes: nat)
    ensures var n := FitCount(t, idx, maxBytes);
            Listed(t, idx, maxBytes) == Lines(Names(t)[..n]) && IsLongestFit(t, idx, maxBytes, n)
  {
    var n := FitCount(t, idx, maxBytes);
    if n > 0 {
      var later := idx + |t[0].name| + 1;
      ListingIsLongestFittingPrefix(t[1..], later, maxBytes);
      LinesStep(t, n);
      forall k | 0 < k < |t|
        ensures FitsAt(t, idx, maxBytes, k) <==> FitsAt(t[1..], later, maxBytes, k - 1)
      {
        LinesStep(t, k);
      }
    }
  }

  lemma {:induction false} LinesLength(names: seq<string>)
    requires forall n | n in names :: |n| < FS_MAX_NAME
    ensures |Lines(names)| <= |names| * FS_MAX_NAME
  {
    if names != [] {
      LinesLength(names[1..]);
    }
  }

  lemma {:induction false} ParseOneLine(line: string, name: string, rest: string)
    requires '\n' !in name
    decreases |name|
    ensures ParseLines(name + "\n" + rest, line) == [line + name] + ParseLines(rest, "")
  {
    var s := name + "\n" + rest;
    if name == [] {
      assert s[1..] == rest && line + name == line;
    } else {
      assert s[1..] == name[1..] + "\n" + rest && name[0] in name;
      ParseOneLine(line + [name[0]], name[1..], rest);
      assert line + [name[0]] + name[1..] == line + name;
    }
  }

  lemma {:induction false} ParseLinesInvertsLines(names: seq<string>)
    requires forall n | n in names :: '\n' !in n
    ensures ParseLines(Lines(names), "") == names
  {
    if names != [] {
      ParseOneLine("", names[0], Lines(names[1..]));
      assert "" + names[0] == names[0];
      ParseLinesInvertsLines(names[1..]);
    }
  }

  /** With room for 1026 bytes the listing is complete and splits back into the names in creation order. */
  lemma ListingParsesBack(t: seq<File>, maxBytes: nat)
    requires WellFormed(t) && maxBytes >= 1026
    requires forall f | f in t :: '\n' !in f.name
    ensures ParseLines(Listed(t, 0, maxBytes), "") == Names(t)
  {
    ListingIsLongestFittingPrefix(t, 0, maxBytes);
    var n := FitCount(t, 0, maxBytes);
    LinesLength(Names(t)[..n]);
    assert Names(t)[..n] == Names(t);
    ParseLinesInvertsLines(Names(t));
  }
}
