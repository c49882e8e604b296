/** The two lookups of a file by name in the boot archive. */
module RamFs {
  import opened Words
  import opened CStrings
  import opened Octal
  import opened Ustar

  /** The data pointer and the size that a lookup hands out. */
  datatype Lookup = NotFound | Found(data: Word, size: Word)

  // ---------- kernel.c ----------

  /** kernel.c's walk from the header at addr, for a name already without its "./". */
  function KernelWalk(m: Memory, addr: nat, end: nat, name: string): Lookup
    requires addr <= end < WORD_LIMIT - BLOCK
    decreases end - addr
  {
    if addr + BLOCK > end || m[addr] == NUL then NotFound
    else
      var size := KernelSizeAt(m, addr);
      if addr + BLOCK + size > end then NotFound
      else if KernelMatch(m, addr, name) then Found(addr + BLOCK, size)
      else if NextHeader(addr, size) > end then NotFound
      else KernelWalk(m, NextHeader(addr, size), end, name)
  }

  function KernelSizeAt(m: Memory, addr: nat): Word
    requires addr + BLOCK < WORD_LIMIT
  {
    Wrap(OctalValue(SizeFieldAt(m, addr)))
  }

  predicate KernelMatch(m: Memory, addr: nat, name: string)
    requires addr + BLOCK < WORD_LIMIT
  {
    RegularAt(m, addr) && TextAt(m, NameStart(m, addr), name)
  }

  function NextHeader(addr: nat, size: nat): nat
  {
    addr + BLOCK + RoundUp(size)
  }

  lemma KernelAdvance(addr: nat, size: Word, end: nat)
    requires addr + BLOCK + size <= end < WORD_LIMIT - BLOCK
    ensures Wrap(BLOCK + Wrap(size + 511) / 512 * 512) == BLOCK + RoundUp(size)
    ensures addr + BLOCK + size <= NextHeader(addr, size) < WORD_LIMIT
  {
    RoundUpFacts(size);
  }

  class KernelRamFs {
    var ramfsStart: Word
    var ramfsEnd: Word

    constructor ()
      ensures ramfsStart == 0 && ramfsEnd == 0
    {
      ramfsStart, ramfsEnd := 0, 0;
    }

    /** The bound on the end is what keeps `addr + 512` from wrapping: see HeaderCheckNeedsRoom. */
    method Read(mem: array<char>, filename: seq<char>) returns (r: Lookup)
      requires mem.Length == WORD_LIMIT && IsCString(filename)
      requires ramfsEnd < WORD_LIMIT - BLOCK
      ensures ramfsStart == 0 || ramfsStart >= ramfsEnd ==> r == NotFound
      ensures 0 < ramfsStart < ramfsEnd ==> r == KernelWalk(mem[..], ramfsStart, ramfsEnd, Stripped(Text(filename)))
    {
      if ramfsStart == 0 || ramfsStart >= ramfsEnd {
        return NotFound;
      }
      r := ReadStripped(mem, filename);
    }

    method ReadStripped(mem: array<char>, filename: seq<char>) returns (r: Lookup)
      requires mem.Length == WORD_LIMIT && IsCString(filename)
      requires 0 < ramfsStart < ramfsEnd < WORD_LIMIT - BLOCK
      ensures r == KernelWalk(mem[..], ramfsStart, ramfsEnd, Stripped(Text(filename)))
    {
      if filename[0] == '.' && filename[1] == '/' {
        StrippedText(filename);
        r := Search(mem, filename[2..]);
      } else {
        UnstrippedText(filename);
        r := Search(mem, filename);
      }
    }

    /** The loop over the headers. */
    method Search(mem: array<char>, wanted: seq<char>) returns (r: Lookup)
      requires mem.Length == WORD_LIMIT && IsCString(wanted)
      requires ramfsStart < ramfsEnd < WORD_LIMIT - BLOCK
      ensures r == KernelWalk(mem[..], ramfsStart, ramfsEnd, Text(wanted))
    {
      hide KernelWalk, Text, NextHeader, KernelSizeAt, NameStart, RegularAt, TextAt, RoundUp;
      ghost var m, name := mem[..], Text(wanted);
      var addr: Word := ramfsStart;
      while Wrap(addr + BLOCK) <= ramfsEnd
        invariant addr <= ramfsEnd
        invariant KernelWalk(m, addr, ramfsEnd, name) == KernelWalk(m, ramfsStart, ramfsEnd, name)
        decreases ramfsEnd - addr
      {
        KernelStep(m, addr, ramfsEnd, name);
        if mem[addr] == NUL {
          break;
        }
        var size, start, regular := ReadHeader(mem, addr);
        var data: Word := Wrap(addr + BLOCK);
        if size > ramfsEnd - data {
          break;
        }
        var diff := StrCmpAt(mem, start, wanted);
        if regular && diff == 0 {
          return Found(data, size);
        }
        KernelAdvance(addr, size, ramfsEnd);
        var advance: Word := Wrap(BLOCK + Wrap(size + 511) / 512 * 512);
        if advance > ramfsEnd - addr {
          break;
        }
        var next: Word := Wrap(addr + advance);
        assert next == addr + advance > addr;
        addr := next;
      }
      KernelStep(m, addr, ramfsEnd, name);
      return NotFound;
    }
  }

  method ReadSize(mem: array<char>, addr: nat) returns (size: Word)
    requires mem.Length == WORD_LIMIT && addr + BLOCK < WORD_LIMIT
    ensures size == KernelSizeAt(mem[..], addr)
  {
    size := KernelOctalToInt(mem[addr + SIZE_OFFSET..addr + SIZE_END], 12);
    assert mem[addr + SIZE_OFFSET..addr + SIZE_END][..12] == SizeFieldAt(mem[..], addr);
  }

  /** What the loop takes from a header: the size, where its name starts, and whether it is a regular file. */
  method ReadHeader(mem: array<char>, addr: nat) returns (size: Word, start: Word, regular: bool)
    requires mem.Length == WORD_LIMIT && addr + BLOCK < WORD_LIMIT
    ensures size == KernelSizeAt(mem[..], addr)
    ensures start == NameStart(mem[..], addr)
    ensures regular <==> RegularAt(mem[..], addr)
  {
    size := ReadSize(mem, addr);
    start := addr;
    if mem[addr] == '.' && mem[Wrap(addr + 1)] == '/' {
      start := Wrap(addr + 2);
    }
    regular := mem[addr + TYPE_OFFSET] == '0' || mem[addr + TYPE_OFFSET] == NUL;
  }

  /** One unfolding of the walk. */
  lemma KernelStep(m: Memory, addr: nat, end: nat, name: string)
    requires addr <= end < WORD_LIMIT - BLOCK
    ensures addr + BLOCK > end || m[addr] == NUL ==> KernelWalk(m, addr, end, name) == NotFound
    ensures addr + BLOCK <= end && m[addr] != NUL ==>
              var size := KernelSizeAt(m, addr);
              KernelWalk(m, addr, end, name) ==
              if addr + BLOCK + size > end then NotFound
              else if KernelMatch(m, addr, name) then Found(addr + BLOCK, size)
              else if addr + (BLOCK + RoundUp(size)) > end then NotFound
              else KernelWalk(m, addr + (BLOCK + RoundUp(size)), end, name)
  {}

  lemma UnstrippedText(s: seq<char>)
    requires IsCString(s) && !(s[0] == '.' && s[1] == '/')
    ensures Stripped(Text(s)) == Text(s)
  {}

  lemma StrippedText(s: seq<char>)
    requires IsCString(s) && s[0] == '.' && |s| > 1 && s[1] == '/'
    ensures IsCString(s[2..]) && Text(s[2..]) == Stripped(Text(s))
  {
    assert Text(s)[0] == '.' && |Text(s)| >= 2;
    assert s == ['.', '/'] + s[2..];
    TextConcat(['.', '/'], s[2..]);
    var n := |Text(s)|;
    assert s[2..][n - 2] == NUL;
  }

  /** A result is the data of a whole matching header at or after addr, and lies before end. */
  predicate IsInside(m: Memory, addr: nat, end: nat, name: string, r: Lookup)
    requires end < WORD_LIMIT - BLOCK
  {
    r.Found? ==>
      && addr + BLOCK <= r.data
      && r.data + r.size <= end
      && r.data % BLOCK == addr % BLOCK
      && r.size == KernelSizeAt(m, r.data - BLOCK)
      && KernelMatch(m, r.data - BLOCK, name)
  }

  /** Whatever bytes the module holds, a result lies inside it. */
  lemma {:induction false} KernelResultIsInside(m: Memory, addr: nat, end: nat, name: string)
    requires addr <= end < WORD_LIMIT - BLOCK
    ensures IsInside(m, addr, end, name, KernelWalk(m, addr, end, name))
    decreases end - addr
  {
    hide KernelSizeAt, KernelMatch;
    if addr + BLOCK <= end && m[addr] != NUL {
      var size := KernelSizeAt(m, addr);
      if addr + BLOCK + size <= end && NextHeader(addr, size) <= end && !KernelMatch(m, addr, name) {
        RoundUpFacts(size);
        KernelResultIsInside(m, NextHeader(addr, size), end, name);
      }
    }
  }

  /** A lookup reads no byte at or after its result, and none at or after the end of the module. */
  lemma {:induction false} WalkReadsBelow(m: Memory, n: Memory, addr: nat, end: nat, name: string, limit: nat)
    requires addr <= end < WORD_LIMIT - BLOCK && |name| < NAME_FIELD
    requires forall x: Word | x < limit :: m[x] == n[x]
    requires var r := KernelWalk(m, addr, end, name);
             if r.Found? then r.data <= limit else end <= limit
    ensures KernelWalk(n, addr, end, name) == KernelWalk(m, addr, end, name)
    decreases end - addr
  {
    hide KernelSizeAt, KernelMatch, KernelWalk;
    KernelStep(m, addr, end, name);
    KernelStep(n, addr, end, name);
    KernelResultIsInside(m, addr, end, name);
    if addr + BLOCK <= end {
      assert addr + BLOCK <= limit;
      HeaderIsLocal(m, n, addr, name);
      var next := addr + (BLOCK + RoundUp(KernelSizeAt(m, addr)));
      if m[addr] != NUL && next <= end && !KernelMatch(m, addr, name) {
        RoundUpFacts(KernelSizeAt(m, addr));
        if addr + BLOCK + KernelSizeAt(m, addr) <= end {
          WalkReadsBelow(m, n, next, end, name, limit);
        }
      }
    }
  }

  lemma HeaderIsLocal(m: Memory, n: Memory, addr: nat, name: string)
    requires addr + BLOCK < WORD_LIMIT && |name| < NAME_FIELD
    requires forall x: Word | addr <= x < addr + BLOCK :: m[x] == n[x]
    ensures KernelSizeAt(m, addr) == KernelSizeAt(n, addr)
    ensures KernelMatch(m, addr, name) <==> KernelMatch(n, addr, name)
  {
    hide OctalValue, TextAt;
    assert SizeFieldAt(m, addr) == SizeFieldAt(n, addr);
    assert Wrap(addr + 1) == addr + 1 && Wrap(addr + 2) == addr + 2;
    assert NameStart(m, addr) == NameStart(n, addr);
    TextIsLocal(m, n, NameStart(m, addr), name);
  }

  lemma TextIsLocal(m: Memory, n: Memory, p: nat, s: string)
    requires p + |s| < WORD_LIMIT
    requires forall x: Word | p <= x <= p + |s| :: m[x] == n[x]
    ensures TextAt(m, p, s) <==> TextAt(n, p, s)
  {
    forall i | 0 <= i < |s|
      ensures m[Wrap(p + i)] == s[i] <==> n[Wrap(p + i)] == s[i]
    {
      assert Wrap(p + i) == p + i;
    }
  }

  /** The loop's header check means a whole header in the module, for every reachable addr, exactly when
      the module ends below 2^32 - 512. */
  lemma HeaderCheckNeedsRoom(end: Word)
    ensures (forall addr: nat | addr <= end :: HeaderCheck(addr, end) <==> addr + BLOCK <= end)
            <==> end < WORD_LIMIT - BLOCK
  {
    if end >= WORD_LIMIT - BLOCK {
      assert HeaderCheck(end, end);
    }
  }

  predicate HeaderCheck(addr: nat, end: nat)
  {
    Wrap(addr + BLOCK) <= end
  }

  // ---------- ramfs.c ----------

  /** ramfs.c's walk. */
  function ModuleWalk(m: Memory, addr: nat, end: nat, name: string): Lookup
    requires addr <= end < WORD_LIMIT - BLOCK
    decreases end - addr
  {
    if addr + BLOCK > end || m[addr] == NUL then NotFound
    else
      var size := ModuleSizeAt(m, addr);
      if ModuleMatch(m, addr, name) then
        if Wrap(addr + BLOCK + size) > end then NotFound else Found(addr + BLOCK, size)
      else if ModuleNext(addr, size) <= addr || ModuleNext(addr, size) > end then NotFound
      else ModuleWalk(m, ModuleNext(addr, size), end, name)
  }

  function ModuleSizeAt(m: Memory, addr: nat): Word
    requires addr + BLOCK < WORD_LIMIT
  {
    GuardedValue(SizeFieldAt(m, addr))
  }

  predicate ModuleMatch(m: Memory, addr: nat, name: string)
    requires addr + BLOCK < WORD_LIMIT
  {
    RegularAt(m, addr) && FirstCharsAgree(m, addr, name, NAME_FIELD)
  }

  /** The rounding and the sum both wrap. */
  function ModuleNext(addr: nat, size: Word): Word
  {
    var rounded := Wrap(size + 511);
    Wrap(addr + 512 + (rounded - rounded % 512))
  }

  /** One unfolding of the walk. */
  lemma ModuleStep(m: Memory, addr: nat, end: nat, name: string)
    requires addr <= end < WORD_LIMIT - BLOCK
    ensures addr + BLOCK > end || m[addr] == NUL ==> ModuleWalk(m, addr, end, name) == NotFound
    ensures addr + BLOCK <= end && m[addr] != NUL ==>
              var size := ModuleSizeAt(m, addr);
              var next := ModuleNext(addr, size);
              ModuleWalk(m, addr, end, name) ==
              if ModuleMatch(m, addr, name) then
                if Wrap(addr + BLOCK + size) > end then NotFound else Found(addr + BLOCK, size)
              else if next <= addr || next > end then NotFound
              else ModuleWalk(m, next, end, name)
  {}

  class ModuleRamFs {
    var ramfsStart: Word
    var ramfsEnd: Word

    constructor ()
      ensures ramfsStart == 0 && ramfsEnd == 0
    {
      ramfsStart, ramfsEnd := 0, 0;
    }

    method Init(initrdStart: Word, initrdEnd: Word)
      modifies this
      ensures if initrdStart < initrdEnd then ramfsStart == initrdStart && ramfsEnd == initrdEnd
              else ramfsStart == 0 && ramfsEnd == 0
    {
      if initrdStart >= initrdEnd {
        ramfsStart := 0;
        ramfsEnd := 0;
        return;
      }
      ramfsStart := initrdStart;
      ramfsEnd := initrdEnd;
    }

    method Read(mem: array<char>, filename: Pointer) returns (r: Lookup)
      requires mem.Length == WORD_LIMIT
      requires filename.To? ==> IsCString(filename.bytes)
      requires ramfsEnd < WORD_LIMIT - BLOCK
      ensures filename.Null? || ramfsStart == 0 || ramfsStart >= ramfsEnd ==> r == NotFound
      ensures filename.To? && 0 < ramfsStart < ramfsEnd ==>
                r == ModuleWalk(mem[..], ramfsStart, ramfsEnd, Text(filename.bytes))
    {
      if ramfsStart == 0 || ramfsEnd <= ramfsStart || filename.Null? {
        return NotFound;
      }
      r := Search(mem, filename.bytes);
    }

    /** The loop over the headers. */
    method Search(mem: array<char>, filename: seq<char>) returns (r: Lookup)
      requires mem.Length == WORD_LIMIT && IsCString(filename)
      requires ramfsStart < ramfsEnd < WORD_LIMIT - BLOCK
      ensures r == ModuleWalk(mem[..], ramfsStart, ramfsEnd, Text(filename))
    {
      hide ModuleWalk, ModuleSizeAt, ModuleMatch, Text;
      ghost var m, name := mem[..], Text(filename);
      var currentAddress: Word := ramfsStart;
      while Wrap(currentAddress + 512) <= ramfsEnd
        invariant currentAddress <= ramfsEnd
        invariant ModuleWalk(m, currentAddress, ramfsEnd, name) == ModuleWalk(m, ramfsStart, ramfsEnd, name)
        decreases ramfsEnd - currentAddress
      {
        ModuleStep(m, currentAddress, ramfsEnd, name);
        if mem[currentAddress] == NUL {
          break;
        }
        var fileSize, wantedHere := InspectHeader(mem, currentAddress, filename);
        if wantedHere {
          if Wrap(currentAddress + 512 + fileSize) > ramfsEnd {
            return NotFound;
          }
          return Found(Wrap(currentAddress + 512), fileSize);
        }
        var rounded := Wrap(fileSize as int + 511);
        var alignedSize := rounded - rounded % 512;
        var nextAddress: Word := Wrap(currentAddress + 512 + alignedSize);
        if nextAddress <= currentAddress || nextAddress > ramfsEnd {
          break;
        }
        currentAddress := nextAddress;
      }
      ModuleStep(m, currentAddress, ramfsEnd, name);
      return NotFound;
    }
  }

  /** What ramfs.c's loop takes from a header: the size, and whether this is the file. */
  method InspectHeader(mem: array<char>, addr: nat, filename: seq<char>) returns (size: Word, found: bool)
    requires mem.Length == WORD_LIMIT && addr + BLOCK < WORD_LIMIT && IsCString(filename)
    ensures size == ModuleSizeAt(mem[..], addr)
    ensures found <==> ModuleMatch(mem[..], addr, Text(filename))
  {
    size := GuardedOctalToInt(mem[addr + SIZE_OFFSET..addr + SIZE_END], 12);
    assert mem[addr + SIZE_OFFSET..addr + SIZE_END][..12] == SizeFieldAt(mem[..], addr);
    var diff := StrNCmpAt(mem, addr, filename, NAME_FIELD);
    found := (mem[addr + TYPE_OFFSET] == '0' || mem[addr + TYPE_OFFSET] == NUL) && diff == 0;
  }

  // ---------- what ramfs.c's bounds check lets through ----------

  type HeaderAddress = h: nat | h + BLOCK < WORD_LIMIT

  /** The headers that ramfs.c's walk visits until it stops, whatever name it looks for. */
  function ModuleHeaders(m: Memory, addr: nat, end: nat): seq<HeaderAddress>
    requires addr <= end < WORD_LIMIT - BLOCK
    decreases end - addr
  {
    if addr + BLOCK > end || m[addr] == NUL then []
    else
      var next := ModuleNext(addr, ModuleSizeAt(m, addr));
      [addr] + if addr < next <= end then ModuleHeaders(m, next, end) else []
  }

  /** The index of the first of these headers that matches the name. */
  function FirstMatching(m: Memory, hs: seq<HeaderAddress>, name: string): (i: nat)
    ensures i <= |hs|
    ensures i < |hs| ==> ModuleMatch(m, hs[i], name)
    ensures forall k | 0 <= k < i :: !ModuleMatch(m, hs[k], name)
  {
    if hs == [] || ModuleMatch(m, hs[0], name) then 0 else 1 + FirstMatching(m, hs[1..], name)
  }

  /** The data of this header, provided that its wrapped end passes ramfs.c's check. */
  function Checked(m: Memory, h: HeaderAddress, end: nat): Lookup
  {
    if Wrap(h + BLOCK + ModuleSizeAt(m, h)) <= end then Found(h + BLOCK, ModuleSizeAt(m, h)) else NotFound
  }

  lemma CheckedStep(m: Memory, addr: nat, end: nat, name: string)
    requires addr <= end < WORD_LIMIT - BLOCK
    ensures addr + BLOCK > end || m[addr] == NUL ==> ModuleWalk(m, addr, end, name) == NotFound
    ensures addr + BLOCK <= end && m[addr] != NUL ==>
              var next := ModuleNext(addr, ModuleSizeAt(m, addr));
              ModuleWalk(m, addr, end, name) ==
              if ModuleMatch(m, addr, name) then Checked(m, addr, end)
              else if next <= addr || next > end then NotFound
              else ModuleWalk(m, next, end, name)
  {
    hide ModuleMatch, ModuleSizeAt, ModuleNext;
  }

  /** A lookup returns the data of the first matching header, provided that the wrapped end passes the check. */
  lemma {:induction false} ModuleReadsFirstMatching(m: Memory, addr: nat, end: nat, name: string)
    requires addr <= end < WORD_LIMIT - BLOCK
    ensures var hs := ModuleHeaders(m, addr, end);
            var i := FirstMatching(m, hs, name);
            ModuleWalk(m, addr, end, name) == if i < |hs| then Checked(m, hs[i], end) else NotFound
    decreases end - addr
  {
    hide ModuleMatch, ModuleSizeAt, ModuleNext, ModuleWalk, FirstMatching, Checked;
    CheckedStep(m, addr, end, name);
    if addr + BLOCK <= end && m[addr] != NUL {
      var next := ModuleNext(addr, ModuleSizeAt(m, addr));
      var rest := if addr < next <= end then ModuleHeaders(m, next, end) else [];
      MatchingStep(m, addr, rest, name);
      if addr < next <= end {
        ModuleReadsFirstMatching(m, next, end, name);
      } else {
        assert FirstMatching(m, rest, name) == 0;
      }
    } else {
      assert FirstMatching(m, [], name) == 0;
    }
  }

  lemma MatchingStep(m: Memory, h: HeaderAddress, rest: seq<HeaderAddress>, name: string)
    ensures FirstMatching(m, [h] + rest, name) ==
            if ModuleMatch(m, h, name) then 0 else 1 + FirstMatching(m, rest, name)
  {
    hide ModuleMatch;
    assert ([h] + rest)[1..] == rest;
  }

  /** The sum of the bounds check carries past 2^32 and comes out inside the module. */
  predicate SizeEscapes(m: Memory, h: HeaderAddress, end: nat)
  {
    WORD_LIMIT <= h + BLOCK + ModuleSizeAt(m, h) <= WORD_LIMIT + end
  }

  /** A result leaves the module exactly when the size of the first matching header escapes the check. */
  lemma ModuleResultIsInsideExactly(m: Memory, addr: nat, end: nat, name: string)
    requires addr <= end < WORD_LIMIT - BLOCK
    ensures var hs, r := ModuleHeaders(m, addr, end), ModuleWalk(m, addr, end, name);
            var i := FirstMatching(m, hs, name);
            r.Found? && r.data + r.size > end <==> i < |hs| && SizeEscapes(m, hs[i], end)
  {
    hide ModuleMatch, ModuleSizeAt, ModuleHeaders, ModuleWalk;
    ModuleReadsFirstMatching(m, addr, end, name);
    HeadersAreInside(m, addr, end);
  }

  lemma {:induction false} HeadersAreInside(m: Memory, addr: nat, end: nat)
    requires addr <= end < WORD_LIMIT - BLOCK
    ensures forall h | h in ModuleHeaders(m, addr, end) :: addr <= h <= end - BLOCK
    decreases end - addr
  {
    hide ModuleSizeAt, ModuleNext;
    if addr + BLOCK <= end && m[addr] != NUL {
      var next := ModuleNext(addr, ModuleSizeAt(m, addr));
      if addr < next <= end {
        HeadersAreInside(m, next, end);
      }
    }
  }

  // ---------- agreement ----------

  /** No "./" name, the name ends inside its field, and the size does not carry past 2^32. */
  predicate TameHeader(m: Memory, h: HeaderAddress)
  {
    && !DotSlashAt(m, h)
    && NUL in m[h..h + NAME_FIELD]
    && h + BLOCK + OctalValue(SizeFieldAt(m, h)) + 511 < WORD_LIMIT
  }

  /** So is every header up to the end of the archive. */
  predicate Tame(m: Memory, addr: nat, end: nat)
    requires addr <= end < WORD_LIMIT - BLOCK
    decreases end - addr
  {
    addr + BLOCK > end || m[addr] == NUL ||
    var next := NextHeader(addr, OctalValue(SizeFieldAt(m, addr)));
    TameHeader(m, addr) && (next <= end ==> Tame(m, next, end))
  }

  lemma NamesCompareAlike(m: Memory, addr: nat, name: string)
    requires addr + BLOCK < WORD_LIMIT && NUL in m[addr..addr + NAME_FIELD] && NUL !in name
    ensures TextAt(m, addr, name) <==> FirstCharsAgree(m, addr, name, NAME_FIELD)
  {
    var k :| 0 <= k < NAME_FIELD && m[addr..addr + NAME_FIELD][k] == NUL;
    assert m[Wrap(addr + k)] == NUL;
    if k < |name| {
      CharIsNotNul(name, k);
    }
  }

  lemma StepsAgree(addr: nat, size: Word)
    requires addr + BLOCK + size + 511 < WORD_LIMIT
    ensures Wrap(size) == size && Wrap(addr + BLOCK + size) == addr + BLOCK + size
    ensures ModuleNext(addr, size) == NextHeader(addr, size) >= addr + BLOCK + size
  {
    RoundUpFacts(size);
  }

  /** On every tame module, well-formed or cut short, the two lookups return the same pointer and size. */
  lemma {:induction false} WalksAgree(m: Memory, addr: nat, end: nat, name: string)
    requires addr <= end < WORD_LIMIT - BLOCK && NUL !in name
    requires Tame(m, addr, end)
    ensures KernelWalk(m, addr, end, name) == ModuleWalk(m, addr, end, name)
    decreases end - addr
  {
    hide TextAt, FirstCharsAgree, ValueFrom;
    if addr + BLOCK <= end && m[addr] != NUL {
      NamesCompareAlike(m, addr, name);
      var size := OctalValue(SizeFieldAt(m, addr));
      StepsAgree(addr, size);
      if NextHeader(addr, size) <= end {
        WalksAgree(m, NextHeader(addr, size), end, name);
      }
    }
  }

  /**
   * The whole failing family: behind tame headers that do not match, a matching one whose size escapes the
   * check. ramfs.c hands out a range that leaves the module; kernel.c finds nothing there.
   */
  lemma WrappingSizeEscapes(m: Memory, addr: nat, end: nat, name: string)
    requires addr <= end < WORD_LIMIT - BLOCK && NUL !in name
    requires var hs := ModuleHeaders(m, addr, end);
             var i := FirstMatching(m, hs, name);
             i < |hs| && SizeEscapes(m, hs[i], end) && forall k | 0 <= k < i :: TameHeader(m, hs[k])
    ensures var r := ModuleWalk(m, addr, end, name);
            r.Found? && r.data + r.size > end
    ensures KernelWalk(m, addr, end, name) == NotFound
  {
    hide ModuleWalk, KernelWalk, ModuleHeaders, FirstMatching, TameHeader;
    ModuleResultIsInsideExactly(m, addr, end, name);
    KernelStopsThere(m, addr, end, name);
  }

  lemma {:induction false} KernelStopsThere(m: Memory, addr: nat, end: nat, name: string)
    requires addr <= end < WORD_LIMIT - BLOCK && NUL !in name
    requires var hs := ModuleHeaders(m, addr, end);
             var i := FirstMatching(m, hs, name);
             i < |hs| && SizeEscapes(m, hs[i], end) && forall k | 0 <= k < i :: TameHeader(m, hs[k])
    ensures KernelWalk(m, addr, end, name) == NotFound
    decreases end - addr
  {
    hide ModuleMatch, ModuleSizeAt, ModuleNext, KernelWalk, KernelMatch, KernelSizeAt, TameHeader, SizeEscapes;
    KernelStep(m, addr, end, name);
    if addr + BLOCK <= end && m[addr] != NUL {
      var hs, next := ModuleHeaders(m, addr, end), ModuleNext(addr, ModuleSizeAt(m, addr));
      assert hs[0] == addr;
      if ModuleMatch(m, addr, name) {
        EscapingSizeIsRejected(m, addr, end);
      } else {
        assert TameHeader(m, hs[0]);
        TameHeadersReadAlike(m, addr, name);
        if addr < next <= end {
          assert hs[1..] == ModuleHeaders(m, next, end);
          KernelStopsThere(m, next, end, name);
        }
      }
    }
  }

  lemma EscapingSizeIsRejected(m: Memory, h: HeaderAddress, end: nat)
    requires SizeEscapes(m, h, end) && end < WORD_LIMIT - BLOCK
    ensures h + BLOCK + KernelSizeAt(m, h) > end
  {
    hide OctalValue;
  }

  lemma TameHeadersReadAlike(m: Memory, h: HeaderAddress, name: string)
    requires TameHeader(m, h) && NUL !in name
    ensures KernelMatch(m, h, name) <==> ModuleMatch(m, h, name)
    ensures var size := KernelSizeAt(m, h);
            ModuleSizeAt(m, h) == size && ModuleNext(h, size) == h + (BLOCK + RoundUp(size))
  {
    hide TextAt, FirstCharsAgree, OctalValue;
    NamesCompareAlike(m, h, name);
    StepsAgree(h, OctalValue(SizeFieldAt(m, h)));
  }

  /** Such a module: one file "a" at 0x300000 whose header announces 0xFFF00000 bytes, in 64 KB. */
  lemma ModuleThatEscapes() returns (m: Memory)
    ensures ModuleWalk(m, 0x30_0000, 0x31_0000, "a") == Found(0x30_0200, 0xFFF0_0000)
    ensures KernelWalk(m, 0x30_0000, 0x31_0000, "a") == NotFound
  {
    hide ValueFrom, ModuleWalk, KernelWalk, TextAt, FirstCharsAgree, TarFile.Header;
    var f := TarFile("a", Zeros(0xFFF0_0000), '0', Zeros(24), Zeros(20), Zeros(355));
    m := Zeros(0x30_0000) + f.Header() + Zeros(WORD_LIMIT - 0x30_0200);
    assert m[0x30_0000..0x30_0200] == f.Header();
    HeaderIsTame(m, 0x30_0000, f);
    HeaderReadsBack(m, 0x30_0000, f);
    NamesCompareAlike(m, 0x30_0000, "a");
    assert ModuleHeaders(m, 0x30_0000, 0x31_0000)[0] == 0x30_0000;
    WrappingSizeEscapes(m, 0x30_0000, 0x31_0000, "a");
    ModuleReadsFirstMatching(m, 0x30_0000, 0x31_0000, "a");
  }

  // ---------- round trip with the writer ----------

  /** The first regular file whose name matches once a leading "./" is dropped from both names. */
  function FirstMatch(files: seq<TarFile>, name: string): (i: nat)
    ensures i <= |files|
    ensures i < |files| ==> Wanted(files[i], name)
    ensures forall k | 0 <= k < i :: !Wanted(files[k], name)
  {
    if files == [] || Wanted(files[0], name) then 0 else 1 + FirstMatch(files[1..], name)
  }

  predicate Wanted(f: TarFile, name: string)
  {
    f.Regular() && Stripped(f.name) == Stripped(name)
  }

  /** Which names are the same name: x and ./x, and no others. */
  lemma SameName(a: string, b: string)
    ensures Stripped(a) == Stripped(b) <==>
            || a == b
            || (a == "./" + b && !("./" <= b))
            || (b == "./" + a && !("./" <= a))
  {
    assert "./" <= a ==> a == "./" + a[2..];
    assert "./" <= b ==> b == "./" + b[2..];
  }

  /** The module holds the files' blocks, and then nothing or a NUL. */
  predicate HoldsArchive(m: Memory, start: nat, end: nat, files: seq<TarFile>)
  {
    && (forall f | f in files :: f.Valid())
    && start + |Archive(files)| <= end < WORD_LIMIT - BLOCK
    && Placed(m, start, Archive(files))
    && (start + |Archive(files)| == end || m[start + |Archive(files)|] == NUL)
  }

  lemma ArchiveParts(m: Memory, start: nat, end: nat, files: seq<TarFile>)
    requires HoldsArchive(m, start, end, files) && files != []
    ensures var f := files[0];
            && f.Valid()
            && NextHeader(start, |f.data|) <= end
            && Placed(m, start, f.Header())
            && Placed(m, start + BLOCK, f.data)
            && HoldsArchive(m, NextHeader(start, |f.data|), end, files[1..])
  {
    var f := files[0];
    var zeros := Zeros(RoundUp(|f.data|) - |f.data|);
    PlacedParts(m, start, f.Blocks(), Archive(files[1..]));
    PlacedParts(m, start, f.Header(), f.data + zeros);
    PlacedParts(m, start + BLOCK, f.data, zeros);
  }

  lemma StrippedHasNoNul(name: string)
    requires NUL !in name
    ensures NUL !in Stripped(name)
  {}

  /** What the kernel's walk sees at a header of the writer. */
  lemma KernelReadsHeader(m: Memory, addr: nat, f: TarFile, name: string)
    requires f.Valid() && Placed(m, addr, f.Header()) && addr + BLOCK < WORD_LIMIT && NUL !in name
    ensures m[addr] != NUL && KernelSizeAt(m, addr) == |f.data|
    ensures KernelMatch(m, addr, name) <==> f.Regular() && name == Stripped(f.name)
  {
    hide TextAt, SizeFieldAt, OctalValue, TarFile.Header, Placed, Stripped, NameStart, SizeField, RegularAt;
    HeaderReadsBack(m, addr, f);
    NameReadsBack(m, addr, f.name);
    StrippedHasNoNul(f.name);
    if TextAt(m, NameStart(m, addr), name) {
      TextAtIsUnique(m, NameStart(m, addr), Stripped(f.name), name);
    }
  }

  /** A walk from a written header either finds this file or goes on at the next header. */
  lemma KernelVisits(m: Memory, start: nat, end: nat, files: seq<TarFile>, name: string)
    requires HoldsArchive(m, start, end, files) && files != [] && NUL !in name
    ensures var f := files[0];
            && start + BLOCK + |f.data| <= NextHeader(start, |f.data|) <= end
            && HoldsArchive(m, NextHeader(start, |f.data|), end, files[1..])
            && m[start + BLOCK..start + BLOCK + |f.data|] == f.data
            && KernelWalk(m, start, end, name) ==
               if f.Regular() && name == Stripped(f.name) then Found(start + BLOCK, |f.data|)
               else KernelWalk(m, NextHeader(start, |f.data|), end, name)
  {
    hide KernelSizeAt, KernelMatch, TextAt;
    ArchiveParts(m, start, end, files);
    RoundUpFacts(|files[0].data|);
    KernelReadsHeader(m, start, files[0], name);
    KernelStep(m, start, end, name);
  }

  /** Reading a written archive gives exactly the bytes and size of the first match, and nothing iff there is none. */
  lemma {:induction false} ArchiveRoundTrip(m: Memory, start: nat, end: nat, files: seq<TarFile>, name: string)
    requires HoldsArchive(m, start, end, files) && NUL !in name
    ensures var i := FirstMatch(files, name);
            var r := KernelWalk(m, start, end, Stripped(name));
            && (r.Found? <==> i < |files|)
            && (r.Found? ==> && r.size == |files[i].data|
                             && r.data + r.size <= end
                             && m[r.data..r.data + r.size] == files[i].data)
    decreases |files|
  {
    if files != [] {
      hide HoldsArchive, KernelWalk;
      KernelVisits(m, start, end, files, Stripped(name));
      if !Wanted(files[0], name) {
        ArchiveRoundTrip(m, NextHeader(start, |files[0].data|), end, files[1..], name);
      }
    }
  }

  predicate NoDotSlash(files: seq<TarFile>)
  {
    forall f | f in files :: Stripped(f.name) == f.name
  }

  lemma {:induction false} WrittenArchivesAreTame(m: Memory, start: nat, end: nat, files: seq<TarFile>)
    requires HoldsArchive(m, start, end, files) && NoDotSlash(files)
    ensures Tame(m, start, end)
    decreases |files|
  {
    if files != [] {
      var f := files[0];
      ArchiveParts(m, start, end, files);
      assert f in files;
      HeaderIsTame(m, start, f);
      RoundUpFacts(|f.data|);
      WrittenArchivesAreTame(m, NextHeader(start, |f.data|), end, files[1..]);
    }
  }

  lemma HeaderIsTame(m: Memory, addr: nat, f: TarFile)
    requires f.Valid() && Placed(m, addr, f.Header()) && addr + BLOCK < WORD_LIMIT
    requires Stripped(f.name) == f.name
    ensures !DotSlashAt(m, addr) && NUL in m[addr..addr + NAME_FIELD]
    ensures OctalValue(SizeFieldAt(m, addr)) == |f.data|
  {
    HeaderReadsBack(m, addr, f);
    DotSlashIsInName(m, addr, f.name);
    assert m[addr..addr + NAME_FIELD][|f.name|] == m[Wrap(addr + |f.name|)];
  }

  /** On a written archive without "./" names, ramfs.c returns the same pointer and size. */
  lemma BothLookupsReadTheArchive(m: Memory, start: nat, end: nat, files: seq<TarFile>, name: string)
    requires HoldsArchive(m, start, end, files) && NoDotSlash(files)
    requires NUL !in name && Stripped(name) == name
    ensures KernelWalk(m, start, end, Stripped(name)) == ModuleWalk(m, start, end, name)
  {
    WrittenArchivesAreTame(m, start, end, files);
    WalksAgree(m, start, end, name);
  }
}
