/** The scancode decoder and the key ring as single calls see it. */
module KeyboardDriver {
  import opened CStrings
  import opened KeyRing

  type Scancode = b: nat | b < 256

  const EXTENDED: Scancode := 0xE0
  const CAPS_LOCK: Scancode := 0x3A
  const LEFT_SHIFT := 0x2A
  const RIGHT_SHIFT := 0x36

  const ESCAPE := 27 as char

  /** Entry `code` of `sc_normal`, row by row; every entry not listed is zero. */
  function ScNormal(code: nat): char
  {
    if code == 1 then ESCAPE
    else if 2 <= code < 14 then "1234567890-="[code - 2]
    else if code == 14 then BACKSPACE
    else if code == 15 then '\t'
    else if 16 <= code < 28 then "qwertyuiop[]"[code - 16]
    else if code == 28 then '\n'
    else if 30 <= code < 42 then "asdfghjkl;'`"[code - 30]
    else if 43 <= code < 54 then "\\zxcvbnm,./"[code - 43]
    else if code == 55 then '*'
    else if code == 57 then ' '
    else NUL
  }

  /** Entry `code` of `sc_shift`. */
  function ScShift(code: nat): char
  {
    if code == 1 then ESCAPE
    else if 2 <= code < 14 then "!@#$%^&*()_+"[code - 2]
    else if code == 14 then BACKSPACE
    else if code == 15 then '\t'
    else if 16 <= code < 28 then "QWERTYUIOP{}"[code - 16]
    else if code == 28 then '\n'
    else if 30 <= code < 42 then "ASDFGHJKL:\"~"[code - 30]
    else if 43 <= code < 54 then "|ZXCVBNM<>?"[code - 43]
    else if code == 55 then '*'
    else if code == 57 then ' '
    else NUL
  }

  predicate IsLower(c: char) { 'a' <= c <= 'z' }
  predicate IsUpper(c: char) { 'A' <= c <= 'Z' }

  /** The character for a make code, caps lock applied to letters only. */
  function KeyChar(code: nat, shift: bool, caps: bool): char
  {
    var c := if shift then ScShift(code) else ScNormal(code);
    if caps && IsLower(c) then (c as int - 32) as char
    else if caps && IsUpper(c) then (c as int + 32) as char
    else c
  }

  // ---------- the decoder as a state machine ----------

  datatype Decoder = Decoder(shift: bool, caps: bool, ext: bool)

  function Code(sc: Scancode): nat { sc % 128 }
  predicate Released(sc: Scancode) { sc >= 128 }
  predicate IsShift(sc: Scancode) { Code(sc) == LEFT_SHIFT || Code(sc) == RIGHT_SHIFT }

  /** One byte from the controller: the new state, and the key offered to the ring (NUL for none). */
  function Decode(d: Decoder, sc: Scancode): (Decoder, char)
  {
    if sc == EXTENDED then (d.(ext := true), NUL)
    else if d.ext then (d.(ext := false), NUL)
    else if IsShift(sc) then (d.(shift := !Released(sc)), NUL)
    else if Released(sc) then (d, NUL)
    else if Code(sc) == CAPS_LOCK then (d.(caps := !d.caps), NUL)
    else (d, KeyChar(Code(sc), d.shift, d.caps))
  }

  const AT_BOOT := Decoder(false, false, false)

  function DecoderAfter(s: seq<Scancode>): Decoder
  {
    if s == [] then AT_BOOT else Decode(DecoderAfter(s[..|s| - 1]), s[|s| - 1]).0
  }

  /** The keys offered while a stream is decoded. */
  function Offered(s: seq<Scancode>): seq<char>
  {
    if s == [] then []
    else
      var c := Decode(DecoderAfter(s[..|s| - 1]), s[|s| - 1]).1;
      Offered(s[..|s| - 1]) + (if c == NUL then [] else [c])
  }

  lemma StreamStep(s: seq<Scancode>, b: Scancode)
    ensures DecoderAfter(s + [b]) == Decode(DecoderAfter(s), b).0
    ensures var c := Decode(DecoderAfter(s), b).1;
            Offered(s + [b]) == Offered(s) + (if c == NUL then [] else [c])
  {
    assert (s + [b])[..|s|] == s;
  }

  // ---------- the same in terms of positions in the stream ----------

  /** Byte i is neither a prefix nor prefixed. */
  predicate Unprefixed(s: seq<Scancode>, i: nat)
    requires i < |s|
  {
    s[i] != EXTENDED && (i == 0 || s[i - 1] != EXTENDED)
  }

  ghost function CapsPresses(s: seq<Scancode>): set<nat>
  {
    set i: nat | i < |s| && Unprefixed(s, i) && s[i] == CAPS_LOCK
  }

  /** The last unprefixed shift event is a press. */
  ghost predicate ShiftHeld(s: seq<Scancode>)
  {
    exists i: nat :: i < |s| && Unprefixed(s, i) && IsShift(s[i]) && !Released(s[i]) &&
      forall j: nat | i < j < |s| && Unprefixed(s, j) :: !IsShift(s[j])
  }

  lemma CapsPressesStep(s: seq<Scancode>, b: Scancode)
    ensures CapsPresses(s + [b]) ==
            if Unprefixed(s + [b], |s|) && b == CAPS_LOCK then CapsPresses(s) + {|s|} else CapsPresses(s)
    ensures |s| !in CapsPresses(s)
  {
    assert forall i: nat | i < |s| :: (s + [b])[i] == s[i] && (Unprefixed(s + [b], i) <==> Unprefixed(s, i));
  }

  lemma ShiftHeldStep(s: seq<Scancode>, b: Scancode)
    ensures ShiftHeld(s + [b]) <==>
            if Unprefixed(s + [b], |s|) && IsShift(b) then !Released(b) else ShiftHeld(s)
  {
    var t := s + [b];
    assert forall i: nat | i < |s| :: t[i] == s[i] && (Unprefixed(t, i) <==> Unprefixed(s, i));
    assert t[|s|] == b;
    if ShiftHeld(s) && !(Unprefixed(t, |s|) && IsShift(b)) {
      var i: nat :| i < |s| && Unprefixed(s, i) && IsShift(s[i]) && !Released(s[i]) &&
        forall j: nat | i < j < |s| && Unprefixed(s, j) :: !IsShift(s[j]);
      assert Unprefixed(t, i) && forall j: nat | i < j < |t| && Unprefixed(t, j) :: !IsShift(t[j]);
    }
  }

  lemma NoEvents()
    ensures CapsPresses([]) == {} && !ShiftHeld([])
  {}

  /** The decoder's flags by positions: the prefix, the parity of caps presses, the last shift event. */
  ghost predicate FollowsStream(d: Decoder, s: seq<Scancode>)
  {
    && (d.ext <==> s != [] && s[|s| - 1] == EXTENDED)
    && (d.caps <==> |CapsPresses(s)| % 2 == 1)
    && (d.shift <==> ShiftHeld(s))
  }

  /** For every stream: prefix, caps and shift are what the positions say. */
  lemma {:induction false} DecoderFollowsStream(s: seq<Scancode>)
    ensures FollowsStream(DecoderAfter(s), s)
  {
    hide CapsPresses, ShiftHeld, KeyChar;
    if s == [] {
      NoEvents();
    } else {
      var before, b := s[..|s| - 1], s[|s| - 1];
      DecoderFollowsStream(before);
      assert s == before + [b];
      StreamFollows(before, b);
    }
  }

  lemma StreamFollows(before: seq<Scancode>, b: Scancode)
    requires FollowsStream(DecoderAfter(before), before)
    ensures FollowsStream(DecoderAfter(before + [b]), before + [b])
  {
    hide CapsPresses, ShiftHeld, KeyChar, DecoderAfter, Offered;
    StreamStep(before, b);
    CapsPressesStep(before, b);
    ShiftHeldStep(before, b);
  }

  /** The byte after a prefix changes neither shift nor caps and offers nothing. */
  lemma PrefixedByteIsIgnored(s: seq<Scancode>, b: Scancode)
    requires !Unprefixed(s + [b], |s|)
    ensures Offered(s + [b]) == Offered(s)
    ensures DecoderAfter(s + [b]).shift == DecoderAfter(s).shift && DecoderAfter(s + [b]).caps == DecoderAfter(s).caps
  {
    hide CapsPresses, ShiftHeld, KeyChar, DecoderAfter, Offered;
    StreamStep(s, b);
    DecoderFollowsStream(s);
  }

  // ---------- the case of letters ----------

  /** The entries of one key in the two tables: a letter in both cases, or no letter in either. */
  predicate Pairs(lower: char, upper: char)
  {
    && !IsUpper(lower) && !IsLower(upper)
    && (IsLower(lower) <==> IsUpper(upper))
    && (IsLower(lower) ==> upper as int == lower as int - 32)
  }

  lemma NumberRowPairs(k: nat)
    requires k < 12
    ensures Pairs("1234567890-="[k], "!@#$%^&*()_+"[k])
  {}

  lemma TopRowPairs(k: nat)
    requires k < 12
    ensures Pairs("qwertyuiop[]"[k], "QWERTYUIOP{}"[k])
  {}

  lemma HomeRowPairs(k: nat)
    requires k < 12
    ensures Pairs("asdfghjkl;'`"[k], "ASDFGHJKL:\"~"[k])
  {}

  lemma BottomRowPairs(k: nat)
    requires k < 11
    ensures Pairs("\\zxcvbnm,./"[k], "|ZXCVBNM<>?"[k])
  {}

  /** Shift turns each lower-case entry into its upper case, and makes no other letter. */
  lemma TablesPair(code: nat)
    ensures Pairs(ScNormal(code), ScShift(code))
  {
    hide Pairs;
    if 2 <= code < 14 {
      NumberRowPairs(code - 2);
    } else if 16 <= code < 28 {
      TopRowPairs(code - 16);
    } else if 30 <= code < 42 {
      HomeRowPairs(code - 30);
    } else if 43 <= code < 54 {
      BottomRowPairs(code - 43);
    } else {
      OtherKeysPair();
    }
  }

  lemma OtherKeysPair()
    ensures Pairs(NUL, NUL) && Pairs(ESCAPE, ESCAPE) && Pairs(BACKSPACE, BACKSPACE)
    ensures Pairs('\t', '\t') && Pairs('\n', '\n') && Pairs('*', '*') && Pairs(' ', ' ')
  {}

  /** A letter comes out upper case exactly when shift and caps lock differ. */
  lemma LetterCase(code: nat, shift: bool, caps: bool)
    ensures var c := KeyChar(code, shift, caps);
            && (IsUpper(c) || IsLower(c) <==> IsLower(ScNormal(code)))
            && (IsUpper(c) ==> shift != caps)
            && (IsLower(c) ==> shift == caps)
            && (IsUpper(c) ==> c as int == ScNormal(code) as int - 32)
            && (IsLower(c) ==> c == ScNormal(code))
  {
    hide ScNormal, ScShift;
    TablesPair(code);
  }

  /** So over whole streams: a letter's case is set by the last shift event and the parity of caps presses. */
  lemma OfferedLetterCase(s: seq<Scancode>, b: Scancode)
    requires Unprefixed(s + [b], |s|) && !Released(b) && !IsShift(b) && b != CAPS_LOCK
    ensures var c := KeyChar(Code(b), ShiftHeld(s), |CapsPresses(s)| % 2 == 1);
            && Offered(s + [b]) == Offered(s) + (if c == NUL then [] else [c])
            && (IsUpper(c) || IsLower(c) ==> (IsUpper(c) <==> (ShiftHeld(s) != (|CapsPresses(s)| % 2 == 1))))
  {
    hide KeyChar, ShiftHeld, CapsPresses, DecoderAfter, Offered;
    StreamStep(s, b);
    DecoderFollowsStream(s);
    LetterCase(Code(b), ShiftHeld(s), |CapsPresses(s)| % 2 == 1);
  }

  // ---------- keyboard.c ----------

  function Count(head: nat, tail: nat): (n: nat)
    requires head < KEY_BUFFER_SIZE && tail < KEY_BUFFER_SIZE
  {
    if tail <= head then head - tail else head + KEY_BUFFER_SIZE - tail
  }

  /** The keys from slot `tail` up to slot `head`, oldest first. */
  function QueueOf(buffer: seq<char>, head: nat, tail: nat): (q: seq<char>)
    requires |buffer| == KEY_BUFFER_SIZE && head < KEY_BUFFER_SIZE && tail < KEY_BUFFER_SIZE
    ensures |q| == Count(head, tail)
    decreases Count(head, tail)
  {
    if head == tail then [] else [buffer[tail]] + QueueOf(buffer, head, (tail + 1) % KEY_BUFFER_SIZE)
  }

  /** Storing at the head and moving it on appends to the queue. */
  lemma {:induction false} QueueGrows(buffer: seq<char>, head: nat, tail: nat, c: char)
    requires |buffer| == KEY_BUFFER_SIZE && head < KEY_BUFFER_SIZE && tail < KEY_BUFFER_SIZE
    requires (head + 1) % KEY_BUFFER_SIZE != tail
    ensures QueueOf(buffer[head := c], (head + 1) % KEY_BUFFER_SIZE, tail) == QueueOf(buffer, head, tail) + [c]
    decreases Count(head, tail)
  {
    if head != tail {
      QueueGrows(buffer, head, (tail + 1) % KEY_BUFFER_SIZE, c);
    }
  }

  /** In every reachable state of the interleaved ring, the slots from tail to head are the pending keys. */
  lemma RingHoldsPendingKeys(r: Ring)
    requires SharedInv(r)
    ensures r.head < KEY_BUFFER_SIZE && r.tail < KEY_BUFFER_SIZE
    ensures QueueOf(r.buffer, r.head, r.tail) == r.accepted[|r.delivered|..]
  {
    PendingFrom(r, |r.delivered|);
  }

  lemma {:induction false} PendingFrom(r: Ring, k: nat)
    requires SharedInv(r) && |r.delivered| <= k <= |r.accepted|
    ensures r.head < KEY_BUFFER_SIZE && Slot(k) < KEY_BUFFER_SIZE
    ensures QueueOf(r.buffer, r.head, Slot(k)) == r.accepted[k..]
    decreases |r.accepted| - k
  {
    SlotsDiffer(k, |r.accepted|);
    if k < |r.accepted| {
      SlotFacts(k);
      PendingFrom(r, k + 1);
    }
  }

  /** As much as the ring can hold. */
  function FirstKeys(s: seq<char>): seq<char>
  {
    if |s| < KEY_BUFFER_SIZE then s else s[..KEY_BUFFER_SIZE - 1]
  }

  lemma NothingDecoded()
    ensures DecoderAfter([]) == AT_BOOT && Offered([]) == []
  {}

  class Keyboard {
    const keyBuffer: array<char>
    var keyHead: nat
    var keyTail: nat
    var shiftDown: bool
    var capsOn: bool
    var extPrefix: bool

    ghost predicate Valid()
      reads this
    {
      keyBuffer.Length == KEY_BUFFER_SIZE && keyHead < KEY_BUFFER_SIZE && keyTail < KEY_BUFFER_SIZE
    }

    /** The keys in the ring, oldest first. */
    ghost function Queue(): (q: seq<char>)
      requires Valid()
      reads this, keyBuffer
      ensures |q| < KEY_BUFFER_SIZE
    {
      QueueOf(keyBuffer[..], keyHead, keyTail)
    }

    function State(): Decoder
      reads this
    {
      Decoder(shiftDown, capsOn, extPrefix)
    }

    constructor ()
      ensures Valid() && fresh(keyBuffer) && Queue() == [] && State() == AT_BOOT
    {
      keyBuffer := new char[KEY_BUFFER_SIZE](_ => NUL);
      keyHead, keyTail := 0, 0;
      shiftDown, capsOn, extPrefix := false, false, false;
    }

    method GetChar() returns (c: char)
      requires Valid()
      modifies `keyTail
      ensures Valid()
      ensures old(Queue()) == [] ==> c == NUL && Queue() == []
      ensures old(Queue()) != [] ==> c == old(Queue())[0] && Queue() == old(Queue())[1..]
    {
      if keyHead == keyTail {
        return NUL;
      }
      c := keyBuffer[keyTail];
      keyTail := (keyTail + 1) % KEY_BUFFER_SIZE;
    }

    method PushKey(c: char)
      requires Valid()
      modifies `keyHead, keyBuffer
      ensures Valid()
      ensures Queue() == if |old(Queue())| < 255 then old(Queue()) + [c] else old(Queue())
    {
      var next := (keyHead + 1) % KEY_BUFFER_SIZE;
      ghost var before := keyBuffer[..];
      if next != keyTail {
        QueueGrows(before, keyHead, keyTail, c);
        keyBuffer[keyHead] := c;
        assert keyBuffer[..] == before[keyHead := c];
        keyHead := next;
      }
    }

    /** The handler for one byte read from the controller. */
    method Handle(sc: Scancode)
      requires Valid()
      modifies `keyHead, `shiftDown, `capsOn, `extPrefix, keyBuffer
      ensures Valid()
      ensures State() == Decode(old(State()), sc).0
      ensures var c := Decode(old(State()), sc).1;
              Queue() == if c != NUL && |old(Queue())| < 255 then old(Queue()) + [c] else old(Queue())
    {
      hide ScNormal, ScShift, QueueOf;
      if sc == EXTENDED {
        extPrefix := true;
        return;
      }
      if extPrefix {
        extPrefix := false;
        return;
      }
      var released := sc >= 0x80;
      var code := sc % 0x80;
      if code == 0x2A || code == 0x36 {
        shiftDown := !released;
        return;
      }
      if released {
        return;
      }
      if code == 0x3A {
        capsOn := !capsOn;
        return;
      }
      var c := if shiftDown then ScShift(code) else ScNormal(code);
      if capsOn {
        if 'a' <= c <= 'z' {
          c := (c as int - 32) as char;
        } else if 'A' <= c <= 'Z' {
          c := (c as int + 32) as char;
        }
      }
      if c != NUL {
        PushKey(c);
      }
    }

    /** A whole stream with no reads in between: the ring keeps the first 255 keys that it was offered. */
    method HandleAll(s: seq<Scancode>)
      requires Valid() && State() == AT_BOOT && Queue() == []
      modifies `keyHead, `shiftDown, `capsOn, `extPrefix, keyBuffer
      ensures Valid() && FollowsStream(State(), s)
      ensures Queue() == FirstKeys(Offered(s))
    {
      hide Offered, DecoderAfter, FollowsStream, QueueOf;
      NothingDecoded();
      for i := 0 to |s|
        invariant Valid() && State() == DecoderAfter(s[..i])
        invariant Queue() == FirstKeys(Offered(s[..i]))
      {
        StreamStep(s[..i], s[i]);
        assert s[..i + 1] == s[..i] + [s[i]];
        Handle(s[i]);
      }
      assert s[..|s|] == s;
      DecoderFollowsStream(s);
    }
  }
}
