/** NUL-terminated text: a `char` stands for one byte of memory, a C `char`. */
module CStrings {

  const NUL := '\0'
  const BACKSPACE := 8 as char

  /** A pointer that C code compares with NULL before it reads through it. */
  datatype Pointer = Null | To(bytes: seq<char>)

  /** A buffer that a C string function can scan: it holds a NUL. */
  predicate IsCString(s: seq<char>)
  {
    NUL in s
  }

  /** The characters before the first NUL. */
  function Text(s: seq<char>): (t: string)
    ensures NUL !in t && |t| <= |s|
    ensures IsCString(s) ==> |t| < |s| && s[|t|] == NUL
    ensures t == s[..|t|]
  {
    if s == [] || s[0] == NUL then [] else [s[0]] + Text(s[1..])
  }

  /** The text is determined by where the first NUL is. */
  lemma {:induction false} TextIsPrefix(s: seq<char>, n: nat)
    requires n < |s| && s[n] == NUL && NUL !in s[..n]
    ensures Text(s) == s[..n]
  {
    if n > 0 {
      assert s[0] in s[..n];
      assert s[1..][..n - 1] == s[..n][1..];
      TextIsPrefix(s[1..], n - 1);
    }
  }

  lemma TextOfLiteral(t: string, rest: seq<char>)
    requires NUL !in t
    ensures IsCString(t + [NUL] + rest) && Text(t + [NUL] + rest) == t
  {
    var s := t + [NUL] + rest;
    assert s[|t|] == NUL && s[..|t|] == t;
    TextIsPrefix(s, |t|);
  }

  /** The `while (s[len] != '\\0') len++` loop. */
  method StrLen(s: seq<char>) returns (len: nat)
    requires IsCString(s)
    ensures len == |Text(s)|
  {
    len := 0;
    while s[len] != NUL
      invariant 0 <= len < |s|
      invariant forall k | 0 <= k < len :: s[k] != NUL
      decreases |s| - len
    {
      len := len + 1;
    }
    TextIsPrefix(s, len);
  }

  /** The comparison loop shared by `fs_strcmp` and `user_strcmp`. */
  method StrCmp(a: seq<char>, b: seq<char>) returns (r: int)
    requires IsCString(a) && IsCString(b)
    ensures r == 0 <==> Text(a) == Text(b)
  {
    var i := 0;
    while a[i] != NUL && a[i] == b[i]
      invariant 0 <= i < |a| && i < |b|
      invariant a[..i] == b[..i]
      invariant forall k | 0 <= k < i :: a[k] != NUL && b[k] != NUL
      decreases |a| - i
    {
      i := i + 1;
    }
    r := a[i] as int - b[i] as int;
    if a[i] == NUL {
      TextIsPrefix(a, i);
    }
    if b[i] == NUL {
      TextIsPrefix(b, i);
    }
  }

  /** The first n characters of a text, or all of it. */
  function FirstChars(t: string, n: nat): string
  {
    if |t| <= n then t else t[..n]
  }

  /** The bounded comparison `user_strncmp`. */
  method StrNCmp(a: seq<char>, b: seq<char>, n: nat) returns (r: int)
    requires IsCString(a) && IsCString(b)
    ensures r == 0 <==> FirstChars(Text(a), n) == FirstChars(Text(b), n)
  {
    var i := 0;
    var left := n;
    while left > 0 && a[i] != NUL && a[i] == b[i]
      invariant left == n - i && 0 <= i <= n
      invariant i <= |Text(a)| && i <= |Text(b)| && Text(a)[..i] == Text(b)[..i]
      decreases left
    {
      i := i + 1;
      left := left - 1;
    }
    if left == 0 {
      return 0;
    }
    r := a[i] as int - b[i] as int;
    ghost var s, t := FirstChars(Text(a), n), FirstChars(Text(b), n);
    if r == 0 {
      assert Text(a) == Text(a)[..i] && Text(b) == Text(b)[..i];
    } else if i < |Text(a)| && i < |Text(b)| {
      assert s[i] != t[i];
    }
  }

  lemma TextConcat(a: string, s: seq<char>)
    requires NUL !in a
    ensures Text(a + s) == a + Text(s)
  {
    if a == [] {
      assert a + s == s;
    } else {
      assert (a + s)[1..] == a[1..] + s;
      TextConcat(a[1..], s);
    }
  }

  /** A string's suffixes are the strings that its inner pointers see. */
  lemma TextFrom(s: seq<char>, p: nat)
    requires IsCString(s) && p <= |Text(s)|
    ensures IsCString(s[p..]) && Text(s[p..]) == Text(s)[p..]
  {
    assert s == s[..p] + s[p..] && s[..p] == Text(s)[..p];
    TextConcat(s[..p], s[p..]);
    assert s[p..][|Text(s)| - p] == NUL;
  }

  /** Nothing after a NUL counts. */
  lemma {:induction false} TextCut(s: seq<char>, rest: seq<char>)
    ensures IsCString(s + [NUL] + rest) && Text(s + [NUL] + rest) == Text(s)
  {
    var t := s + [NUL] + rest;
    assert t[|s|] == NUL;
    if s != [] && s[0] != NUL {
      assert t[1..] == s[1..] + [NUL] + rest;
      TextCut(s[1..], rest);
    }
  }
}
