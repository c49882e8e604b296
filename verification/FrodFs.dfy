/** The in-memory file table: 32 slots of fixed size, searched in slot order. */
module FrodFs {
  import opened Words
  import opened CStrings

  const FS_MAX_FILES := 32
  const FS_MAX_NAME := 32
  const FS_MAX_SIZE := 4096

  datatype Slot = Slot(name: seq<char>, size: Word, data: seq<char>, used: bool)
  {
    predicate Valid()
    {
      && |name| == FS_MAX_NAME
      && |data| == FS_MAX_SIZE
      && IsCString(name)
      && size <= FS_MAX_SIZE
      && (used ==> Text(name) != "")
    }

    function Contents(): File
      requires Valid()
    {
      File(Text(name), data[..size])
    }
  }

  datatype File = File(name: string, data: seq<char>)

  // ---------- the table as a list of files ----------

  /** The position of the first file of that name, or the length of the table. */
  function Find(t: seq<File>, name: string): (i: nat)
    ensures i <= |t|
    ensures i < |t| ==> t[i].name == name
    ensures forall k | 0 <= k < i :: t[k].name != name
  {
    if t == [] || t[0].name == name then 0 else 1 + Find(t[1..], name)
  }

  lemma FindIs(t: seq<File>, name: string, i: nat)
    requires i <= |t| && (i < |t| ==> t[i].name == name)
    requires forall k | 0 <= k < i :: t[k].name != name
    ensures Find(t, name) == i
  {}

  /** A name as a slot keeps it. */
  function Stored(name: string): string
  {
    name[..Min(|name|, FS_MAX_NAME - 1)]
  }

  function Created(t: seq<File>, name: string): (r: (seq<File>, int))
  {
    if name == "" then (t, -1)
    else if Find(t, name) < |t| then (t, -2)
    else if |t| < FS_MAX_FILES then (t + [File(Stored(name), "")], 0)
    else (t, -3)
  }

  function Written(t: seq<File>, name: string, data: seq<char>): (r: (seq<File>, int))
  {
    if |data| > FS_MAX_SIZE then (t, -1)
    else
      var i := Find(t, name);
      if i < |t| then (t[i := File(t[i].name, data)], 0) else (t, -2)
  }

  /** Read's whole effect: the first min(size, max) bytes of the file, or an error and no change. */
  ghost predicate ReadResult(t: seq<File>, name: string, maxSize: Word, before: seq<char>, outBefore: Word,
                             code: int, after: seq<char>, outAfter: Word)
  {
    var i := Find(t, name);
    if i < |t| then
      var n := Min(|t[i].data|, maxSize);
      code == 0 && outAfter == n <= |before| && after == t[i].data[..n] + before[n..]
    else
      code == -2 && outAfter == outBefore && after == before
  }

  /** The listing of `t` after `idx` characters are already written into `maxBytes`. */
  function Listed(t: seq<File>, idx: nat, maxBytes: nat): string
  {
    if t == [] || idx + |t[0].name| + 2 >= maxBytes then ""
    else t[0].name + "\n" + Listed(t[1..], idx + |t[0].name| + 1, maxBytes)
  }

  lemma ListStep(t: seq<File>, i: nat, idx: nat, maxBytes: nat)
    requires i <= |t|
    ensures Listed(t[i..], idx, maxBytes) ==
            if i == |t| || idx + |t[i].name| + 2 >= maxBytes then ""
            else t[i].name + "\n" + Listed(t[i + 1..], idx + |t[i].name| + 1, maxBytes)
  {
    if i < |t| {
      assert t[i..][0] == t[i] && t[i..][1..] == t[i + 1..];
    }
  }

  // ---------- the slots as such a list ----------

  predicate ValidSlots(slots: seq<Slot>)
  {
    && (forall i | 0 <= i < |slots| :: slots[i].Valid())
    && (forall i, j | 0 <= i < j < |slots| :: slots[j].used ==> slots[i].used)
  }

  function FilesOf(slots: seq<Slot>): seq<File>
    requires ValidSlots(slots)
  {
    if slots == [] || !slots[0].used then [] else [slots[0].Contents()] + FilesOf(slots[1..])
  }

  /** Used slots are a prefix, and hold the files in order. */
  lemma {:induction false} FilesAreThePrefix(slots: seq<Slot>)
    requires ValidSlots(slots)
    ensures var t := FilesOf(slots);
            && |t| <= |slots|
            && (forall i | 0 <= i < |slots| :: slots[i].used <==> i < |t|)
            && (forall i | 0 <= i < |t| :: t[i] == slots[i].Contents())
  {
    if slots != [] && slots[0].used {
      FilesAreThePrefix(slots[1..]);
      var rest := FilesOf(slots[1..]);
      forall i | 0 <= i < |slots|
        ensures slots[i].used <==> i < |rest| + 1
      {
        if i > 0 { assert slots[i] == slots[1..][i - 1]; }
      }
    }
  }

  lemma {:induction false} FilesFrom(slots: seq<Slot>, t: seq<File>)
    requires ValidSlots(slots) && |t| <= |slots|
    requires forall i | 0 <= i < |slots| :: slots[i].used <==> i < |t|
    requires forall i | 0 <= i < |t| :: t[i] == slots[i].Contents()
    ensures FilesOf(slots) == t
  {
    FilesAreThePrefix(slots);
    var u := FilesOf(slots);
    var k := Min(|u|, |t|);
    assert k < |slots| ==> (slots[k].used <==> k < |u|);
  }

  class FileTable {
    const storage: array<Slot>

    ghost predicate Valid()
      reads this, storage
    {
      storage.Length == FS_MAX_FILES && ValidSlots(storage[..])
    }

    function Files(): seq<File>
      requires Valid()
      reads this, storage
    {
      FilesOf(storage[..])
    }

    /** Static storage is zero. */
    constructor ()
      ensures Valid() && fresh(storage) && Files() == []
    {
      var blank := Slot(seq(FS_MAX_NAME, _ => NUL), 0, seq(FS_MAX_SIZE, _ => NUL), false);
      assert blank.name[0] == NUL;
      storage := new Slot[FS_MAX_FILES](_ => blank);
    }

    method Init()
      requires Valid()
      modifies storage
      ensures Valid() && Files() == []
    {
      for i := 0 to FS_MAX_FILES
        invariant forall k | 0 <= k < FS_MAX_FILES :: storage[k].Valid()
        invariant forall k | 0 <= k < i :: !storage[k].used
      {
        assert forall s: seq<char> :: |s| > 0 ==> s[0 := NUL][0] == NUL;
        storage[i] := storage[i].(used := false, size := 0, name := storage[i].name[0 := NUL]);
      }
    }

    /** The search that create, write and read share: the slot of that name, or 32. */
    method FindSlot(name: seq<char>) returns (i: nat)
      requires Valid() && IsCString(name)
      ensures i < FS_MAX_FILES ==> i == Find(Files(), Text(name)) < |Files()|
      ensures i >= FS_MAX_FILES ==> i == FS_MAX_FILES && Find(Files(), Text(name)) == |Files()|
    {
      hide Text, Find, FilesOf;
      FilesAreThePrefix(storage[..]);
      for k := 0 to FS_MAX_FILES
        invariant forall l | 0 <= l < k && l < |Files()| :: Files()[l].name != Text(name)
      {
        if storage[k].used {
          var diff := StrCmp(storage[k].name, name);
          if diff == 0 {
            FindIs(Files(), Text(name), k);
            return k;
          }
        }
      }
      FindIs(Files(), Text(name), |Files()|);
      return FS_MAX_FILES;
    }

    method Create(name: Pointer) returns (code: int)
      requires Valid()
      requires name.To? ==> IsCString(name.bytes)
      modifies storage
      ensures Valid()
      ensures name.Null? ==> code == -1 && Files() == old(Files())
      ensures name.To? ==> (Files(), code) == Created(old(Files()), Text(name.bytes))
    {
      if name.Null? || name.bytes[0] == NUL {
        return -1;
      }
      var slot := FindSlot(name.bytes);
      if slot < FS_MAX_FILES {
        return -2;
      }
      FilesAreThePrefix(storage[..]);
      for i := 0 to FS_MAX_FILES
        invariant i <= |Files()| && storage[..] == old(storage[..])
      {
        if !storage[i].used {
          var copied := StrNCpy(storage[i].name, name.bytes, FS_MAX_NAME);
          SlotTaken(storage[..], i, storage[i].(name := copied, size := 0, used := true));
          storage[i] := storage[i].(name := copied);
          storage[i] := storage[i].(size := 0);
          storage[i] := storage[i].(used := true);
          assert storage[..] == old(storage[..])[i := storage[i]];
          return 0;
        }
      }
      return -3;
    }

    method Write(name: Pointer, buffer: Pointer, size: Word) returns (code: int)
      requires Valid()
      requires name.To? ==> IsCString(name.bytes)
      requires buffer.To? && size <= FS_MAX_SIZE ==> size <= |buffer.bytes|
      modifies storage
      ensures Valid()
      ensures name.Null? || buffer.Null? || size > FS_MAX_SIZE ==> code == -1 && Files() == old(Files())
      ensures name.To? && buffer.To? && size <= FS_MAX_SIZE ==>
                (Files(), code) == Written(old(Files()), Text(name.bytes), buffer.bytes[..size])
    {
      if name.Null? || buffer.Null? || size > FS_MAX_SIZE {
        return -1;
      }
      var i := FindSlot(name.bytes);
      if i == FS_MAX_FILES {
        return -2;
      }
      CopyIn(i, buffer.bytes, size);
      return 0;
    }

    /** Write's copy loop into the slot that was found. */
    method CopyIn(i: nat, buffer: seq<char>, size: Word)
      requires Valid() && i < |Files()| && size <= FS_MAX_SIZE && size <= |buffer|
      requires i < FS_MAX_FILES
      modifies storage
      ensures Valid()
      ensures Files() == old(Files())[i := File(old(Files())[i].name, buffer[..size])]
    {
      FilesAreThePrefix(storage[..]);
      for j := 0 to size
        invariant forall k | 0 <= k < FS_MAX_FILES && k != i :: storage[k] == old(storage[k])
        invariant storage[i] == old(storage[i]).(data := storage[i].data)
        invariant |storage[i].data| == FS_MAX_SIZE && storage[i].data[..j] == buffer[..j]
      {
        storage[i] := storage[i].(data := storage[i].data[j := buffer[j]]);
      }
      storage[i] := storage[i].(size := size);
      SlotRewritten(old(storage[..]), i, storage[i]);
      assert storage[..] == old(storage[..])[i := storage[i]];
    }

    method Read(name: Pointer, buffer: array?<char>, maxSize: Word, outSize: array?<Word>) returns (code: int)
      requires Valid()
      requires name.To? ==> IsCString(name.bytes)
      requires buffer != null ==> Min(maxSize, FS_MAX_SIZE) <= buffer.Length
      requires outSize != null ==> outSize.Length == 1
      modifies if buffer == null then {} else {buffer}
      modifies if outSize == null then {} else {outSize}
      ensures name.Null? || buffer == null || outSize == null ==>
                && code == -1
                && (buffer != null ==> buffer[..] == old(buffer[..]))
                && (outSize != null ==> outSize[..] == old(outSize[..]))
      ensures name.To? && buffer != null && outSize != null ==>
                ReadResult(Files(), Text(name.bytes), maxSize, old(buffer[..]), old(outSize[0]),
                           code, buffer[..], outSize[0])
    {
      if name.Null? || buffer == null || outSize == null {
        return -1;
      }
      code := ReadInto(name.bytes, buffer, maxSize, outSize);
    }

    method ReadInto(name: seq<char>, buffer: array<char>, maxSize: Word, outSize: array<Word>) returns (code: int)
      requires Valid() && IsCString(name)
      requires Min(maxSize, FS_MAX_SIZE) <= buffer.Length && outSize.Length == 1
      modifies buffer, outSize
      ensures ReadResult(Files(), Text(name), maxSize, old(buffer[..]), old(outSize[0]), code, buffer[..], outSize[0])
    {
      var i := FindSlot(name);
      if i == FS_MAX_FILES {
        return -2;
      }
      FilesAreThePrefix(storage[..]);
      assert storage[i].data[..storage[i].size] == Files()[i].data;
      var readBytes := if storage[i].size > maxSize then maxSize else storage[i].size;
      assert storage[i].data[..readBytes] == Files()[i].data[..readBytes];
      CopyOut(i, buffer, readBytes);
      outSize[0] := readBytes;
      return 0;
    }

    method List(out: array?<char>, maxBytes: Word) returns (code: int)
      requires Valid()
      requires out != null ==> maxBytes <= out.Length
      modifies if out == null then {} else {out}
      ensures out == null || maxBytes == 0 ==> code == -1 && (out != null ==> out[..] == old(out[..]))
      ensures out != null && maxBytes > 0 ==>
                var text := Listed(Files(), 0, maxBytes);
                && code == 0
                && |text| < maxBytes
                && out[..] == text + [NUL] + old(out[..])[|text| + 1..]
    {
      if out == null || maxBytes == 0 {
        return -1;
      }
      ListInto(out, maxBytes);
      return 0;
    }

    method ListInto(out: array<char>, maxBytes: Word)
      requires Valid() && 0 < maxBytes <= out.Length
      modifies out
      ensures |Listed(Files(), 0, maxBytes)| < maxBytes
      ensures out[..] == Listed(Files(), 0, maxBytes) + [NUL] + old(out[..])[|Listed(Files(), 0, maxBytes)| + 1..]
    {
      hide Listed, Text;
      var idx := 0;
      out[0] := NUL;
      ghost var t := Files();
      ghost var rest := Listed(t, 0, maxBytes);
      FilesAreThePrefix(storage[..]);
      for i := 0 to FS_MAX_FILES
        invariant 0 <= idx < maxBytes && storage[..] == old(storage[..])
        invariant rest == Listed(t[Min(i, |t|)..], idx, maxBytes)
        invariant out[..idx] + rest == Listed(t, 0, maxBytes)
        invariant forall k | idx < k < out.Length :: out[k] == old(out[k])
      {
        if storage[i].used {
          var name := storage[i].name;
          var len := StrLen(name);
          ListStep(t, i, idx, maxBytes);
          if idx + len + 2 >= maxBytes {
            break;
          }
          ghost var later := Listed(t[i + 1..], idx + len + 1, maxBytes);
          Regroup(out[..idx], Text(name) + "\n", later);
          PutLine(out, idx, name, len);
          idx, rest := idx + len + 1, later;
        }
      }
      ListStep(t, |t|, idx, maxBytes);
      out[idx] := NUL;
    }

    /** Read's copy loop out of the slot that was found. */
    method CopyOut(i: nat, buffer: array<char>, n: nat)
      requires storage.Length == FS_MAX_FILES && i < FS_MAX_FILES
      requires n <= |storage[i].data| && n <= buffer.Length
      modifies buffer
      ensures buffer[..] == old(storage[i].data[..n] + buffer[n..])
      ensures storage[..] == old(storage[..])
    {
      for j := 0 to n
        invariant storage[..] == old(storage[..])
        invariant forall k | 0 <= k < j :: buffer[k] == old(storage[i].data)[k]
        invariant forall k | j <= k < buffer.Length :: buffer[k] == old(buffer[k])
      {
        buffer[j] := storage[i].data[j];
      }
    }
  }

  lemma SlotTaken(slots: seq<Slot>, i: nat, slot: Slot)
    requires ValidSlots(slots) && i == |FilesOf(slots)| < |slots|
    requires slot.Valid() && slot.used
    ensures ValidSlots(slots[i := slot])
    ensures FilesOf(slots[i := slot]) == FilesOf(slots) + [slot.Contents()]
  {
    FilesAreThePrefix(slots);
    FilesFrom(slots[i := slot], FilesOf(slots) + [slot.Contents()]);
  }

  lemma SlotRewritten(slots: seq<Slot>, i: nat, slot: Slot)
    requires ValidSlots(slots) && i < |FilesOf(slots)| && i < |slots|
    requires slot.Valid() && slot.used
    ensures ValidSlots(slots[i := slot])
    ensures FilesOf(slots[i := slot]) == FilesOf(slots)[i := slot.Contents()]
  {
    FilesAreThePrefix(slots);
    FilesFrom(slots[i := slot], FilesOf(slots)[i := slot.Contents()]);
  }

  lemma Regroup(a: string, b: string, c: string)
    ensures a + (b + c) == (a + b) + c
  {}

  /** One name and its newline, written at `idx`. */
  method PutLine(out: array<char>, idx: nat, name: seq<char>, len: nat)
    requires len <= |name| && idx + len < out.Length
    modifies out
    ensures out[..idx + len + 1] == old(out[..idx]) + (name[..len] + "\n")
    ensures forall k | idx + len < k < out.Length :: out[k] == old(out[k])
  {
    for j := 0 to len
      invariant out[..idx + j] == old(out[..idx]) + name[..j]
      invariant forall k | idx + j <= k < out.Length :: out[k] == old(out[k])
    {
      out[idx + j] := name[j];
    }
    out[idx + len] := '\n';
  }

  /** The copy loop: at most n - 1 characters and a NUL. */
  method StrNCpy(dest: seq<char>, src: seq<char>, n: nat) returns (r: seq<char>)
    requires 0 < n <= |dest| && IsCString(src)
    ensures |r| == |dest| && IsCString(r)
    ensures Text(r) == Text(src)[..Min(|Text(src)|, n - 1)]
    ensures r[|Text(r)| + 1..] == dest[|Text(r)| + 1..]
  {
    r := dest;
    var i := 0;
    while i < n - 1 && src[i] != NUL
      invariant 0 <= i <= n - 1 && i <= |Text(src)|
      invariant |r| == |dest| && r[..i] == Text(src)[..i] && r[i..] == dest[i..]
    {
      r := r[i := src[i]];
      i := i + 1;
    }
    r := r[i := NUL];
    TextIsPrefix(r, i);
  }
}
