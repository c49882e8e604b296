/** The two parsers of octal text fields, and a printer that both invert. */
module Octal {
  import opened Words
  import opened CStrings

  predicate IsOctalDigit(c: char)
  {
    '0' <= c <= '7'
  }

  predicate EndsField(c: char)
  {
    c == NUL || c == ' '
  }

  /** The value of the octal digits before the first NUL or space, other characters ignored, after v. */
  function ValueFrom(v: nat, s: seq<char>): nat
    decreases |s|
  {
    if s == [] || EndsField(s[0]) then v
    else if IsOctalDigit(s[0]) then ValueFrom(v * 8 + (s[0] as nat - '0' as nat), s[1..])
    else ValueFrom(v, s[1..])
  }

  function OctalValue(s: seq<char>): nat
  {
    ValueFrom(0, s)
  }

  lemma {:induction false} ValueGrows(v: nat, s: seq<char>)
    ensures ValueFrom(v, s) >= v
    decreases |s|
  {
    if s != [] && !EndsField(s[0]) {
      ValueGrows(if IsOctalDigit(s[0]) then v * 8 + (s[0] as nat - '0' as nat) else v, s[1..]);
    }
  }

  lemma DigitModWord(v: nat, w: nat, d: nat)
    requires v % WORD_LIMIT == w % WORD_LIMIT
    ensures (v * 8 + d) % WORD_LIMIT == (w * 8 + d) % WORD_LIMIT
  {
    var p, q, r := v / WORD_LIMIT, w / WORD_LIMIT, v % WORD_LIMIT;
    assert v * 8 + d == WORD_LIMIT * (8 * p) + (r * 8 + d);
    assert w * 8 + d == WORD_LIMIT * (8 * q) + (r * 8 + d);
    SameRemainder(8 * p, r * 8 + d);
    SameRemainder(8 * q, r * 8 + d);
  }

  lemma SameRemainder(k: nat, x: nat)
    ensures (WORD_LIMIT * k + x) % WORD_LIMIT == x % WORD_LIMIT
  {}

  lemma {:induction false} ValueModWord(v: nat, w: nat, s: seq<char>)
    requires v % WORD_LIMIT == w % WORD_LIMIT
    ensures ValueFrom(v, s) % WORD_LIMIT == ValueFrom(w, s) % WORD_LIMIT
    decreases |s|
  {
    if s != [] && !EndsField(s[0]) {
      if IsOctalDigit(s[0]) {
        var d := s[0] as nat - '0' as nat;
        DigitModWord(v, w, d);
        ValueModWord(v * 8 + d, w * 8 + d, s[1..]);
      } else {
        ValueModWord(v, w, s[1..]);
      }
    }
  }

  /** kernel.c's parser: a 32-bit accumulator that wraps. */
  method KernelOctalToInt(s: seq<char>, maxChars: nat) returns (r: Word)
    requires maxChars <= |s|
    ensures r == Wrap(OctalValue(s[..maxChars]))
  {
    r := 0;
    for i := 0 to maxChars
      invariant Wrap(ValueFrom(r, s[i..maxChars])) == Wrap(OctalValue(s[..maxChars]))
    {
      assert s[i..maxChars][1..] == s[i + 1..maxChars];
      if s[i] == NUL || s[i] == ' ' {
        break;
      }
      if s[i] < '0' || s[i] > '7' {
        continue;
      }
      var d := s[i] as nat - '0' as nat;
      ValueModWord(Wrap(r * 8 + d), r * 8 + d, s[i + 1..maxChars]);
      r := Wrap(r * 8 + d);
    }
  }

  /** What ramfs.c's parser is meant to compute: the value, or 0 when it does not fit. */
  function GuardedValue(s: seq<char>): Word
  {
    if OctalValue(s) < WORD_LIMIT then OctalValue(s) else 0
  }

  /** ramfs.c's parser: it gives up before a shift that would overflow. */
  method GuardedOctalToInt(s: seq<char>, maxChars: nat) returns (r: Word)
    requires maxChars <= |s|
    ensures r == GuardedValue(s[..maxChars])
  {
    var maxThreshold := (WORD_LIMIT - 1) / 8;
    r := 0;
    for i := 0 to maxChars
      invariant ValueFrom(r, s[i..maxChars]) == OctalValue(s[..maxChars])
    {
      assert s[i..maxChars][1..] == s[i + 1..maxChars];
      if s[i] == NUL || s[i] == ' ' {
        break;
      }
      if s[i] < '0' || s[i] > '7' {
        continue;
      }
      if r > maxThreshold {
        ValueGrows(r * 8 + (s[i] as nat - '0' as nat), s[i + 1..maxChars]);
        return 0;
      }
      r := Wrap(r * 8 + (s[i] as nat - '0' as nat));
    }
  }

  // ---------- the printer ----------

  function Pow8(n: nat): nat
  {
    if n == 0 then 1 else 8 * Pow8(n - 1)
  }

  /** n as `width` octal digits, most significant first. */
  function OctalDigits(n: nat, width: nat): (s: string)
    ensures |s| == width && forall i | 0 <= i < width :: IsOctalDigit(s[i])
  {
    if width == 0 then [] else OctalDigits(n / 8, width - 1) + [(n % 8 + '0' as int) as char]
  }

  lemma NextDigit(v: nat, p: nat, n: nat)
    ensures (v * p + n / 8) * 8 + n % 8 == v * (8 * p) + n
  {
    assert v * (8 * p) == (v * p) * 8;
  }

  lemma {:induction false} ValueOfDigits(v: nat, n: nat, width: nat, rest: seq<char>)
    requires n < Pow8(width)
    ensures ValueFrom(v, OctalDigits(n, width) + rest) == ValueFrom(v * Pow8(width) + n, rest)
  {
    if width == 0 {
      assert OctalDigits(n, 0) + rest == rest;
    } else {
      var c := (n % 8 + '0' as int) as char;
      assert OctalDigits(n, width) + rest == OctalDigits(n / 8, width - 1) + ([c] + rest);
      ValueOfDigits(v, n / 8, width - 1, [c] + rest);
      assert ([c] + rest)[1..] == rest;
      NextDigit(v, Pow8(width - 1), n);
    }
  }

  /** The digits that count in a field. */
  function FieldDigits(s: seq<char>): seq<nat>
  {
    if s == [] || s[0] == '\0' || s[0] == ' ' then []
    else if '0' <= s[0] <= '7' then [s[0] as nat - '0' as nat] + FieldDigits(s[1..])
    else FieldDigits(s[1..])
  }

  /** What digits mean by their places. */
  function Positional(digits: seq<nat>): nat
  {
    if digits == [] then 0 else digits[0] * Pow8(|digits| - 1) + Positional(digits[1..])
  }

  lemma NoDigits()
    ensures Pow8(0) == 1 && Positional([]) == 0
  {}

  lemma FirstDigit(v: nat, d: nat, rest: seq<nat>)
    ensures (v * 8 + d) * Pow8(|rest|) + Positional(rest) ==
            v * Pow8(|[d] + rest|) + Positional([d] + rest)
  {
    var p := Pow8(|rest|);
    assert (v * 8 + d) * p == v * (8 * p) + d * p;
    assert ([d] + rest)[1..] == rest;
  }

  lemma {:induction false} ValueFromIsPositional(v: nat, s: seq<char>)
    ensures ValueFrom(v, s) == v * Pow8(|FieldDigits(s)|) + Positional(FieldDigits(s))
    decreases |s|
  {
    hide Pow8, Positional;
    if s == [] || EndsField(s[0]) {
      NoDigits();
    } else {
      if IsOctalDigit(s[0]) {
        var d, rest := s[0] as nat - '0' as nat, FieldDigits(s[1..]);
        ValueFromIsPositional(v * 8 + d, s[1..]);
        FirstDigit(v, d, rest);
      } else {
        ValueFromIsPositional(v, s[1..]);
      }
    }
  }

  /** The value that both parsers are about is the number that the counting digits write in base 8. */
  lemma ValueIsPositional(s: seq<char>)
    ensures OctalValue(s) == Positional(FieldDigits(s))
  {
    ValueFromIsPositional(0, s);
  }

  /** A ustar size field: eleven octal digits and a NUL. */
  function SizeField(n: Word): (s: string)
    ensures |s| == 12
  {
    OctalDigits(n, 11) + [NUL]
  }

  lemma ElevenDigitsSuffice()
    ensures Pow8(11) == 2 * WORD_LIMIT
  {
    assert Pow8(4) == 0x1000;
    assert Pow8(8) == 0x100_0000;
  }

  /** Both parsers read back every 32-bit size that the printer writes. */
  lemma ParsersInvertSizeField(n: Word)
    ensures OctalValue(SizeField(n)) == n
    ensures Wrap(OctalValue(SizeField(n))) == n && GuardedValue(SizeField(n)) == n
  {
    ElevenDigitsSuffice();
    ValueOfDigits(0, n, 11, [NUL]);
    assert ValueFrom(n, [NUL]) == n;
    hide Pow8, OctalDigits, ValueFrom;
  }

  /** The parsers agree on a field exactly when its value fits in 32 bits or is a multiple of 2^32. */
  lemma ParsersAgreeExactly(s: seq<char>)
    ensures Wrap(OctalValue(s)) == GuardedValue(s) <==> OctalValue(s) < WORD_LIMIT || OctalValue(s) % WORD_LIMIT == 0
  {}
}
