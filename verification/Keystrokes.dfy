/** The keys that a typist presses for a text, as scancodes of set 1, and what the decoder makes of them. */
module Keystrokes {
  import opened CStrings
  import opened KeyboardDriver

  // ---------- the keyboard: the make code of the key that carries a character ----------

  function NumberKey(c: char): nat
  {
    match c
    case '1' => 0x02 case '2' => 0x03 case '3' => 0x04 case '4' => 0x05
    case '5' => 0x06 case '6' => 0x07 case '7' => 0x08 case '8' => 0x09
    case '9' => 0x0A case '0' => 0x0B case '-' => 0x0C case '=' => 0x0D
    case _ => 0
  }

  function TopKey(c: char): nat
  {
    match c
    case 'q' => 0x10 case 'w' => 0x11 case 'e' => 0x12 case 'r' => 0x13
    case 't' => 0x14 case 'y' => 0x15 case 'u' => 0x16 case 'i' => 0x17
    case 'o' => 0x18 case 'p' => 0x19 case '[' => 0x1A case ']' => 0x1B
    case _ => 0
  }

  function HomeKey(c: char): nat
  {
    match c
    case 'a' => 0x1E case 's' => 0x1F case 'd' => 0x20 case 'f' => 0x21
    case 'g' => 0x22 case 'h' => 0x23 case 'j' => 0x24 case 'k' => 0x25
    case 'l' => 0x26 case ';' => 0x27 case '\'' => 0x28 case '`' => 0x29
    case _ => 0
  }

  function BottomKey(c: char): nat
  {
    match c
    case '\\' => 0x2B case 'z' => 0x2C case 'x' => 0x2D case 'c' => 0x2E
    case 'v' => 0x2F case 'b' => 0x30 case 'n' => 0x31 case 'm' => 0x32
    case ',' => 0x33 case '.' => 0x34 case '/' => 0x35
    case _ => 0
  }

  function ShiftedNumberKey(c: char): nat
  {
    match c
    case '!' => 0x02 case '@' => 0x03 case '#' => 0x04 case '$' => 0x05
    case '%' => 0x06 case '^' => 0x07 case '&' => 0x08 case '*' => 0x09
    case '(' => 0x0A case ')' => 0x0B case '_' => 0x0C case '+' => 0x0D
    case _ => 0
  }

  function ShiftedTopKey(c: char): nat
  {
    match c
    case 'Q' => 0x10 case 'W' => 0x11 case 'E' => 0x12 case 'R' => 0x13
    case 'T' => 0x14 case 'Y' => 0x15 case 'U' => 0x16 case 'I' => 0x17
    case 'O' => 0x18 case 'P' => 0x19 case '{' => 0x1A case '}' => 0x1B
    case _ => 0
  }

  function ShiftedHomeKey(c: char): nat
  {
    match c
    case 'A' => 0x1E case 'S' => 0x1F case 'D' => 0x20 case 'F' => 0x21
    case 'G' => 0x22 case 'H' => 0x23 case 'J' => 0x24 case 'K' => 0x25
    case 'L' => 0x26 case ':' => 0x27 case '\"' => 0x28 case '~' => 0x29
    case _ => 0
  }

  function ShiftedBottomKey(c: char): nat
  {
    match c
    case '|' => 0x2B case 'Z' => 0x2C case 'X' => 0x2D case 'C' => 0x2E
    case 'V' => 0x2F case 'B' => 0x30 case 'N' => 0x31 case 'M' => 0x32
    case '<' => 0x33 case '>' => 0x34 case '?' => 0x35
    case _ => 0
  }

  /** The keys below, beside and between the rows. */
  function OtherKey(c: char): nat
  {
    if c == '\n' then 0x1C
    else if c == BACKSPACE then 0x0E
    else if c == '\t' then 0x0F
    else if c == ' ' then 0x39
    else if c == ESCAPE then 0x01
    else 0
  }

  /** The key for a character without shift; 0 if it needs shift or is not on the keyboard. */
  function PlainKey(c: char): nat
  {
    if NumberKey(c) != 0 then NumberKey(c)
    else if TopKey(c) != 0 then TopKey(c)
    else if HomeKey(c) != 0 then HomeKey(c)
    else if BottomKey(c) != 0 then BottomKey(c)
    else OtherKey(c)
  }

  /** The key for a character that needs shift. */
  function ShiftedKey(c: char): nat
  {
    if ShiftedNumberKey(c) != 0 then ShiftedNumberKey(c)
    else if ShiftedTopKey(c) != 0 then ShiftedTopKey(c)
    else if ShiftedHomeKey(c) != 0 then ShiftedHomeKey(c)
    else ShiftedBottomKey(c)
  }

  predicate OnKeyboard(c: char)
  {
    PlainKey(c) != 0 || ShiftedKey(c) != 0
  }

  // ---------- the driver's tables hold these keys ----------

  lemma NumberKeys(c: char)
    ensures NumberKey(c) != 0 ==> 2 <= NumberKey(c) < 14 && ScNormal(NumberKey(c)) == c
    ensures ShiftedNumberKey(c) != 0 ==> 2 <= ShiftedNumberKey(c) < 14 && ScShift(ShiftedNumberKey(c)) == c
  {}

  lemma TopKeys(c: char)
    ensures TopKey(c) != 0 ==> 16 <= TopKey(c) < 28 && ScNormal(TopKey(c)) == c
    ensures ShiftedTopKey(c) != 0 ==> 16 <= ShiftedTopKey(c) < 28 && ScShift(ShiftedTopKey(c)) == c
  {}

  lemma HomeKeys(c: char)
    ensures HomeKey(c) != 0 ==> 30 <= HomeKey(c) < 42 && ScNormal(HomeKey(c)) == c
    ensures ShiftedHomeKey(c) != 0 ==> 30 <= ShiftedHomeKey(c) < 42 && ScShift(ShiftedHomeKey(c)) == c
  {}

  lemma BottomKeys(c: char)
    ensures BottomKey(c) != 0 ==> 43 <= BottomKey(c) < 54 && ScNormal(BottomKey(c)) == c
    ensures ShiftedBottomKey(c) != 0 ==> 43 <= ShiftedBottomKey(c) < 54 && ScShift(ShiftedBottomKey(c)) == c
  {}

  /** A key that carries characters: none of the keys that the decoder treats on its own. */
  predicate CarriesCharacters(code: nat)
  {
    0 < code < 58 && code != 0x2A && code != 0x36
  }

  /** Both tables agree with the keyboard. */
  lemma KeysGive(c: char)
    ensures PlainKey(c) != 0 ==> CarriesCharacters(PlainKey(c)) && ScNormal(PlainKey(c)) == c
    ensures ShiftedKey(c) != 0 ==> CarriesCharacters(ShiftedKey(c)) && ScShift(ShiftedKey(c)) == c
  {
    hide NumberKey, TopKey, HomeKey, BottomKey;
    hide ShiftedNumberKey, ShiftedTopKey, ShiftedHomeKey, ShiftedBottomKey;
    NumberKeys(c);
    TopKeys(c);
    HomeKeys(c);
    BottomKeys(c);
  }

  // ---------- typing ----------

  /** Press and release of the key for c, inside a press and release of shift if it takes one. */
  function Stroke(c: char, caps: bool, shiftKey: nat): seq<Scancode>
    requires OnKeyboard(c) && (shiftKey == 0x2A || shiftKey == 0x36)
  {
    KeysGive(c);
    var shifted := PlainKey(c) == 0;
    var key := if shifted then ShiftedKey(c) else PlainKey(c);
    if shifted != (caps && ('a' <= c <= 'z' || 'A' <= c <= 'Z'))
    then [shiftKey, key, key + 128, shiftKey + 128]
    else [key, key + 128]
  }

  function Strokes(text: string, caps: bool, shiftKey: nat): seq<Scancode>
    requires (forall c | c in text :: OnKeyboard(c)) && (shiftKey == 0x2A || shiftKey == 0x36)
  {
    if text == [] then []
    else Strokes(text[..|text| - 1], caps, shiftKey) + Stroke(text[|text| - 1], caps, shiftKey)
  }

  /** What a key gives in every state of shift and caps lock. */
  lemma KeyGives(c: char, caps: bool)
    requires OnKeyboard(c)
    ensures var shifted := PlainKey(c) == 0;
            var key := if shifted then ShiftedKey(c) else PlainKey(c);
            KeyChar(key, shifted != (caps && ('a' <= c <= 'z' || 'A' <= c <= 'Z')), caps) == c
  {
    hide ScNormal, ScShift, PlainKey, ShiftedKey;
    KeysGive(c);
    TablesPair(if PlainKey(c) == 0 then ShiftedKey(c) else PlainKey(c));
  }

  /** One stroke offers its character and leaves the decoder as it was. */
  lemma StrokeGives(s: seq<Scancode>, c: char, caps: bool, shiftKey: nat)
    requires OnKeyboard(c) && (shiftKey == 0x2A || shiftKey == 0x36)
    requires DecoderAfter(s) == Decoder(false, caps, false) && c != NUL
    ensures DecoderAfter(s + Stroke(c, caps, shiftKey)) == DecoderAfter(s)
    ensures Offered(s + Stroke(c, caps, shiftKey)) == Offered(s) + [c]
  {
    hide DecoderAfter, Offered, KeyChar, PlainKey, ShiftedKey;
    KeysGive(c);
    KeyGives(c, caps);
    var shifted := PlainKey(c) == 0;
    var key := if shifted then ShiftedKey(c) else PlainKey(c);
    if shifted != (caps && ('a' <= c <= 'z' || 'A' <= c <= 'Z')) {
      HeldStroke(s, key, caps, shiftKey);
    } else {
      BareStroke(s, key, caps);
    }
  }

  lemma BareStroke(s: seq<Scancode>, key: nat, caps: bool)
    requires CarriesCharacters(key) && DecoderAfter(s) == Decoder(false, caps, false)
    ensures DecoderAfter(s + [key, key + 128]) == DecoderAfter(s)
    ensures var c := KeyChar(key, false, caps);
            Offered(s + [key, key + 128]) == Offered(s) + (if c == NUL then [] else [c])
  {
    hide DecoderAfter, Offered, KeyChar;
    StreamStep(s, key);
    StreamStep(s + [key], key + 128);
    assert s + [key] + [key + 128] == s + [key, key + 128];
  }

  lemma HeldStroke(s: seq<Scancode>, key: nat, caps: bool, shiftKey: nat)
    requires CarriesCharacters(key) && DecoderAfter(s) == Decoder(false, caps, false)
    requires shiftKey == 0x2A || shiftKey == 0x36
    ensures var stroke := [shiftKey, key, key + 128, shiftKey + 128];
            var c := KeyChar(key, true, caps);
            && DecoderAfter(s + stroke) == DecoderAfter(s)
            && Offered(s + stroke) == Offered(s) + (if c == NUL then [] else [c])
  {
    hide DecoderAfter, Offered, KeyChar;
    var s1 := s + [shiftKey];
    var s2 := s1 + [key];
    var s3 := s2 + [key + 128];
    StreamStep(s, shiftKey);
    StreamStep(s1, key);
    StreamStep(s2, key + 128);
    StreamStep(s3, shiftKey + 128);
    assert s3 + [shiftKey + 128] == s + [shiftKey, key, key + 128, shiftKey + 128];
  }

  /** Typing any text, with either shift key and with caps lock on or off, offers exactly that text. */
  lemma {:induction false} StrokesGiveText(s: seq<Scancode>, text: string, caps: bool, shiftKey: nat)
    requires (forall c | c in text :: OnKeyboard(c)) && (shiftKey == 0x2A || shiftKey == 0x36)
    requires DecoderAfter(s) == Decoder(false, caps, false)
    ensures DecoderAfter(s + Strokes(text, caps, shiftKey)) == DecoderAfter(s)
    ensures Offered(s + Strokes(text, caps, shiftKey)) == Offered(s) + text
    decreases |text|
  {
    hide DecoderAfter, Offered, Stroke, OnKeyboard;
    if text == [] {
      assert s + [] == s;
    } else {
      var before, c := text[..|text| - 1], text[|text| - 1];
      StrokesGiveText(s, before, caps, shiftKey);
      NulHasNoKey(c);
      StrokeGives(s + Strokes(before, caps, shiftKey), c, caps, shiftKey);
      assert s + (Strokes(before, caps, shiftKey) + Stroke(c, caps, shiftKey)) ==
             s + Strokes(before, caps, shiftKey) + Stroke(c, caps, shiftKey);
      assert before + [c] == text;
    }
  }

  lemma NulHasNoKey(c: char)
    requires OnKeyboard(c)
    ensures c != NUL
  {}

  /** A press of caps lock turns it over and offers nothing. */
  lemma CapsStroke(s: seq<Scancode>, caps: bool)
    requires DecoderAfter(s) == Decoder(false, caps, false)
    ensures DecoderAfter(s + [0x3A, 0xBA]) == Decoder(false, !caps, false)
    ensures Offered(s + [0x3A, 0xBA]) == Offered(s)
  {
    hide DecoderAfter, Offered;
    StreamStep(s, 0x3A);
    StreamStep(s + [0x3A], 0xBA);
    assert s + [0x3A] + [0xBA] == s + [0x3A, 0xBA];
  }

  /** From boot: the keys offered are the text typed. */
  lemma TypedTextIsOffered(text: string)
    requires forall c | c in text :: OnKeyboard(c)
    ensures Offered(Strokes(text, false, 0x2A)) == text
  {
    hide OnKeyboard, Strokes;
    NothingDecoded();
    StrokesGiveText([], text, false, 0x2A);
    assert [] + Strokes(text, false, 0x2A) == Strokes(text, false, 0x2A);
    assert [] + text == text;
  }

  /** The byte after an E0 is ignored, whatever it is. */
  lemma ExtendedKeyGivesNothing(s: seq<Scancode>, b: Scancode)
    requires !DecoderAfter(s).ext && b != 0xE0
    ensures Offered(s + [0xE0] + [b]) == Offered(s) && DecoderAfter(s + [0xE0] + [b]) == DecoderAfter(s)
  {
    hide DecoderAfter, Offered;
    StreamStep(s, 0xE0);
    StreamStep(s + [0xE0], b);
  }
}
