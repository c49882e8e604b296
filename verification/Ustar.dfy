/**
 * Memory, and the part of the ustar format that the kernel reads ("ustar Interchange Format" in the
 * pax utility of POSIX.1): 512-byte headers with a name, an octal size and a type flag, each followed
 * by the data padded to a whole number of blocks.
 */
module Ustar {
  import opened Words
  import opened CStrings
  import opened Octal

  /** What 32-bit addresses can reach. */
  type Memory = m: seq<char> | |m| == WORD_LIMIT ghost witness seq(WORD_LIMIT, _ => NUL)

  const BLOCK := 512
  const NAME_FIELD := 100
  const SIZE_OFFSET := 124
  const SIZE_END := 136
  const TYPE_OFFSET := 156

  /** The NUL-terminated string at p is s. */
  predicate TextAt(m: Memory, p: Word, s: string)
  {
    && (forall i | 0 <= i < |s| :: m[Wrap(p + i)] == s[i])
    && m[Wrap(p + |s|)] == NUL
  }

  lemma CharIsNotNul(s: string, i: nat)
    requires i < |s| && NUL !in s
    ensures s[i] != NUL
  {}

  lemma TextAtIsUnique(m: Memory, p: Word, s: string, t: string)
    requires TextAt(m, p, s) && TextAt(m, p, t)
    requires NUL !in s && NUL !in t
    ensures s == t
  {
    if |s| < |t| {
      CharIsNotNul(t, |s|);
    } else if |t| < |s| {
      CharIsNotNul(s, |t|);
    }
  }

  /** One leading "./" is dropped. */
  function Stripped(name: string): string
  {
    if |name| >= 2 && name[0] == '.' && name[1] == '/' then name[2..] else name
  }

  predicate DotSlashAt(m: Memory, p: Word)
  {
    m[p] == '.' && m[Wrap(p + 1)] == '/'
  }

  /** Where the name to compare starts in a header. */
  function NameStart(m: Memory, addr: Word): Word
  {
    if DotSlashAt(m, addr) then Wrap(addr + 2) else addr
  }

  predicate RegularAt(m: Memory, addr: nat)
    requires addr + BLOCK < WORD_LIMIT
  {
    m[addr + TYPE_OFFSET] == '0' || m[addr + TYPE_OFFSET] == NUL
  }

  function SizeFieldAt(m: Memory, addr: nat): seq<char>
    requires addr + BLOCK < WORD_LIMIT
  {
    m[addr + SIZE_OFFSET..addr + SIZE_END]
  }

  function RoundUp(size: nat): nat
  {
    (size + BLOCK - 1) / BLOCK * BLOCK
  }

  lemma RoundUpFacts(size: nat)
    ensures size <= RoundUp(size) < size + BLOCK && RoundUp(size) % BLOCK == 0
  {}

  // ---------- a writer ----------

  /** An entry of any type; the header fields that the kernel never looks at are arbitrary. */
  datatype TarFile = TarFile(name: string, data: seq<char>, typeflag: char,
                             owner: seq<char>, times: seq<char>, rest: seq<char>)
  {
    predicate Valid()
    {
      && 0 < |name| < NAME_FIELD && NUL !in name
      && |data| < WORD_LIMIT
      && |owner| == 24 && |times| == 20 && |rest| == 355
    }

    predicate Regular()
    {
      typeflag == '0' || typeflag == NUL
    }

    function Header(): (h: seq<char>)
      requires Valid()
      ensures |h| == BLOCK
    {
      name + (Zeros(NAME_FIELD - |name|) + (owner + (SizeField(|data|) + (times + ([typeflag] + rest)))))
    }

    /** Header, data, and padding to a block boundary. */
    function Blocks(): (b: seq<char>)
      requires Valid()
      ensures |b| == BLOCK + RoundUp(|data|)
    {
      Header() + (data + Zeros(RoundUp(|data|) - |data|))
    }
  }

  function Zeros(n: nat): (z: seq<char>)
    ensures |z| == n && forall i | 0 <= i < n :: z[i] == NUL
  {
    seq(n, _ => NUL)
  }

  function Archive(files: seq<TarFile>): seq<char>
    requires forall f | f in files :: f.Valid()
  {
    if files == [] then [] else files[0].Blocks() + Archive(files[1..])
  }

  /** `bytes` lie in memory from `addr`. */
  predicate Placed(m: Memory, addr: nat, bytes: seq<char>)
  {
    addr + |bytes| <= WORD_LIMIT && m[addr..addr + |bytes|] == bytes
  }

  lemma PlacedParts(m: Memory, addr: nat, a: seq<char>, b: seq<char>)
    requires Placed(m, addr, a + b)
    ensures Placed(m, addr, a) && Placed(m, addr + |a|, b)
  {
    var s := m[addr..addr + |a + b|];
    assert a == s[..|a|] && b == s[|a|..];
  }

  lemma HeaderFields(m: Memory, addr: nat, f: TarFile)
    requires f.Valid() && Placed(m, addr, f.Header())
    ensures Placed(m, addr, f.name) && Placed(m, addr + |f.name|, Zeros(NAME_FIELD - |f.name|))
    ensures Placed(m, addr + SIZE_OFFSET, SizeField(|f.data|))
    ensures Placed(m, addr + TYPE_OFFSET, [f.typeflag])
  {
    var afterSize := f.times + ([f.typeflag] + f.rest);
    var afterName := f.owner + (SizeField(|f.data|) + afterSize);
    var zeros := Zeros(NAME_FIELD - |f.name|);
    PlacedParts(m, addr, f.name, zeros + afterName);
    PlacedParts(m, addr + |f.name|, zeros, afterName);
    PlacedParts(m, addr + NAME_FIELD, f.owner, SizeField(|f.data|) + afterSize);
    PlacedParts(m, addr + SIZE_OFFSET, SizeField(|f.data|), afterSize);
    PlacedParts(m, addr + SIZE_END, f.times, [f.typeflag] + f.rest);
    PlacedParts(m, addr + TYPE_OFFSET, [f.typeflag], f.rest);
  }

  lemma PlacedChar(m: Memory, addr: nat, s: seq<char>, i: nat)
    requires Placed(m, addr, s) && i < |s|
    ensures m[addr + i] == s[i]
  {
    assert m[addr..addr + |s|][i] == m[addr + i];
  }

  lemma PlacedText(m: Memory, addr: nat, s: string)
    requires addr + |s| < WORD_LIMIT && Placed(m, addr, s) && m[addr + |s|] == NUL
    ensures TextAt(m, addr, s)
  {
    forall i | 0 <= i < |s|
      ensures m[Wrap(addr + i)] == s[i]
    {
      PlacedChar(m, addr, s, i);
    }
  }

  /** What a reader finds in a header that the writer put at `addr`. */
  lemma HeaderReadsBack(m: Memory, addr: nat, f: TarFile)
    requires f.Valid() && Placed(m, addr, f.Header()) && addr + BLOCK < WORD_LIMIT
    ensures m[addr] != NUL
    ensures TextAt(m, addr, f.name)
    ensures SizeFieldAt(m, addr) == SizeField(|f.data|)
    ensures OctalValue(SizeFieldAt(m, addr)) == |f.data|
    ensures m[addr + 124..addr + 136] == SizeField(|f.data|) && m[addr + 156] == f.typeflag
    ensures RegularAt(m, addr) <==> f.Regular()
  {
    HeaderFields(m, addr, f);
    CharIsNotNul(f.name, 0);
    PlacedChar(m, addr, f.name, 0);
    PlacedChar(m, addr + |f.name|, Zeros(NAME_FIELD - |f.name|), 0);
    PlacedText(m, addr, f.name);
    PlacedChar(m, addr + TYPE_OFFSET, [f.typeflag], 0);
    ParsersInvertSizeField(|f.data|);
  }

  lemma DotSlashIsInName(m: Memory, addr: nat, name: string)
    requires addr + BLOCK < WORD_LIMIT && |name| < NAME_FIELD && TextAt(m, addr, name)
    ensures DotSlashAt(m, addr) <==> |name| >= 2 && name[0] == '.' && name[1] == '/'
  {
    assert m[Wrap(addr + 0)] == if |name| > 0 then name[0] else NUL;
    assert |name| > 0 ==> m[Wrap(addr + 1)] == if |name| > 1 then name[1] else NUL;
  }

  /** The name that is compared at such a header is the file's name without a leading "./". */
  lemma NameReadsBack(m: Memory, addr: nat, name: string)
    requires addr + BLOCK < WORD_LIMIT && |name| < NAME_FIELD
    requires TextAt(m, addr, name)
    ensures TextAt(m, NameStart(m, addr), Stripped(name))
  {
    hide TextAt, DotSlashAt;
    DotSlashIsInName(m, addr, name);
    if DotSlashAt(m, addr) {
      TextTail(m, addr, name, 2);
    }
  }

  lemma TextTail(m: Memory, addr: nat, s: string, n: nat)
    requires n <= |s| && addr + |s| < WORD_LIMIT && TextAt(m, addr, s)
    ensures TextAt(m, addr + n, s[n..])
  {
    forall i | 0 <= i < |s| - n
      ensures m[Wrap(addr + n + i)] == s[n..][i]
    {
      assert m[Wrap(addr + (n + i))] == s[n + i];
    }
  }

  // ---------- string comparison in memory ----------

  /** kernel.c's `ramfs_strcmp` of the string at p with b. */
  method StrCmpAt(mem: array<char>, p: Word, b: seq<char>) returns (r: int)
    requires mem.Length == WORD_LIMIT && IsCString(b)
    ensures r == 0 <==> TextAt(mem[..], p, Text(b))
  {
    var t := Text(b);
    var i := 0;
    while mem[Wrap(p + i)] != NUL && mem[Wrap(p + i)] == b[i]
      invariant 0 <= i <= |t|
      invariant forall k | 0 <= k < i :: mem[Wrap(p + k)] == t[k]
      decreases |t| - i
    {
      i := i + 1;
    }
    r := mem[Wrap(p + i)] as int - b[i] as int;
    if i < |t| {
      assert t[i] in t;
    }
  }

  /** The first n characters of the strings agree, NUL included. */
  predicate FirstCharsAgree(m: Memory, p: Word, s: string, n: nat)
  {
    && (forall i | 0 <= i < |s| && i < n :: m[Wrap(p + i)] == s[i])
    && (|s| < n ==> m[Wrap(p + |s|)] == NUL)
  }

  /** ramfs.c's `ramfs_strncmp`. */
  method StrNCmpAt(mem: array<char>, p: Word, b: seq<char>, n: nat) returns (r: int)
    requires mem.Length == WORD_LIMIT && IsCString(b)
    ensures r == 0 <==> FirstCharsAgree(mem[..], p, Text(b), n)
  {
    if n == 0 {
      return 0;
    }
    var t := Text(b);
    var i := 0;
    var left := n;
    while left > 0 && mem[Wrap(p + i)] != NUL && mem[Wrap(p + i)] == b[i]
      invariant 0 <= i <= |t| && left == n - i && i <= n
      invariant forall k | 0 <= k < i :: mem[Wrap(p + k)] == t[k]
      decreases left
    {
      i := i + 1;
      left := left - 1;
    }
    if left == 0 {
      return 0;
    }
    r := mem[Wrap(p + i)] as int - b[i] as int;
    if i < |t| {
      assert t[i] in t;
    }
  }
}
