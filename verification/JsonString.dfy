/**
 JSON string literals of cJSON/cJSON.c: print_string_ptr, parse_hex4 and parse_string.
 C strings are sequences without NUL; reading at or behind the end yields NUL.
 */
module JsonString {
  import opened Utf8

  ghost predicate NulFree(s: string) { '\0' !in s }

  function At(s: string, i: nat): char { if i < |s| then s[i] else '\0' }

  /** The outcome of a parse function.  `Fail` is the null result of the source; `Overrun` marks an
      escape that runs past its literal, where the source leaves the text and nothing is claimed. */
  datatype Parsed<+T> = Fail | Overrun | Done(value: T, rest: string)

  // ---- Printing ----

  function HexDigit(n: nat): char
    requires n < 16
  {
    if n < 10 then ('0' as int + n) as char else ('a' as int + (n - 10)) as char
  }

  /** `%04x` */
  function HexDigits(n: nat): (h: string)
    requires n < 0x10000
    ensures |h| == 4
  {
    [HexDigit(n / 16 / 16 / 16), HexDigit(n / 16 / 16 % 16), HexDigit(n / 16 % 16), HexDigit(n % 16)]
  }

  /** The letter of the two-character escape of `c`, or NUL if there is none. */
  function EscapeLetter(c: char): char {
    match c
    case '\\' => '\\'
    case '\"' => '\"'
    case '\U{08}' => 'b'
    case '\U{0C}' => 'f'
    case '\n' => 'n'
    case '\r' => 'r'
    case '\t' => 't'
    case _ => '\0'
  }

  function EscapeChar(c: char, escape: bool): string {
    if c as int > 31 && (c != '\"' || !escape) && c != '\\' then [c]
    else if EscapeLetter(c) != '\0' then ['\\', EscapeLetter(c)]
    else "\\u" + HexDigits(c as int % 0x10000)
  }

  function Escape(s: string, escape: bool): string {
    if s == [] then [] else EscapeChar(s[0], escape) + Escape(s[1..], escape)
  }

  /** The text print_string_ptr produces for a JSON string. */
  function Quoted(s: string): string { "\"" + Escape(s, true) + "\"" }

  // ---- Parsing ----

  /** The value of a hexadecimal digit, or 16. */
  function HexValue(c: char): nat {
    if '0' <= c <= '9' then c as int - '0' as int
    else if 'A' <= c <= 'F' then 10 + (c as int - 'A' as int)
    else if 'a' <= c <= 'f' then 10 + (c as int - 'a' as int)
    else 16
  }

  /** `parse_hex4`: 0 as soon as a character is no digit. */
  function Hex4(s: string): (h: nat)
    requires |s| >= 4
    ensures h < 0x10000
  {
    if HexValue(s[0]) == 16 || HexValue(s[1]) == 16 || HexValue(s[2]) == 16 || HexValue(s[3]) == 16 then 0
    else ((HexValue(s[0]) * 16 + HexValue(s[1])) * 16 + HexValue(s[2])) * 16 + HexValue(s[3])
  }

  /** Four characters of the literal itself follow. */
  predicate HasRoom(s: string) {
    |s| >= 4 && forall k | 0 <= k < 4 :: s[k] != '\"' && s[k] != '\\'
  }

  function Unescape(e: char): char {
    match e
    case 'b' => '\U{08}'
    case 'f' => '\U{0C}'
    case 'n' => '\n'
    case 'r' => '\r'
    case 't' => '\t'
    case _ => e
  }

  predicate IsHighSurrogate(u: nat) { 0xD800 <= u < 0xDC00 }

  predicate IsLowSurrogate(u: nat) { 0xDC00 <= u < 0xE000 }

  /** One escape sequence: the bytes it stands for and the text behind it. */
  function DecodeEscape(t: string): (r: Parsed<string>)
    requires t != [] && t[0] == '\\'
    ensures !r.Fail? && (r.Done? ==> |r.rest| < |t|)
  {
    if |t| < 2 then Overrun
    else if t[1] != 'u' then Done([Unescape(t[1])], t[2..])
    else if !HasRoom(t[2..]) then Overrun
    else
      var uc, r := Hex4(t[2..]), t[6..];
      if IsLowSurrogate(uc) || uc == 0 then Done([], r)
      else if !IsHighSurrogate(uc) then Done(Encode(uc), r)
      else if !("\\u" <= r) then Done([], r)
      else if !HasRoom(r[2..]) then Overrun
      else
        var uc2 := Hex4(r[2..]);
        if !IsLowSurrogate(uc2) then Done([], r[6..])
        else Done(Encode(0x10000 + uc % 0x400 * 0x400 + uc2 % 0x400), r[6..])
  }

  function Prepend(s: string, p: Parsed<string>): Parsed<string> {
    if p.Done? then Done(s + p.value, p.rest) else p
  }

  /** The text behind the opening quote: the decoded string and what follows the closing quote
      (or the end of the text, which also ends a string). */
  function DecodeBody(t: string): Parsed<string>
    decreases |t|
  {
    if t == [] then Done([], [])
    else if t[0] == '\"' then Done([], t[1..])
    else if t[0] != '\\' then Prepend([t[0]], DecodeBody(t[1..]))
    else
      var e := DecodeEscape(t);
      if e.Done? then Prepend(e.value, DecodeBody(e.rest)) else e
  }

  // ---- What digits and letters stand for ----

  const SMALL_DIGITS := "0123456789abcdef"
  const CAPITAL_DIGITS := "0123456789ABCDEF"

  /** The character is the hexadecimal digit worth `d`, in either case. */
  predicate IsHexDigit(c: char, d: nat)
    requires d < 16
  {
    c == SMALL_DIGITS[d] || c == CAPITAL_DIGITS[d]
  }

  lemma Digits16(d: nat)
    requires d < 16
    ensures SMALL_DIGITS[d] as int == if d < 10 then 48 + d else 87 + d
    ensures CAPITAL_DIGITS[d] as int == if d < 10 then 48 + d else 55 + d
  {
  }

  /** Digits of both cases have their values, and no other character is a digit. */
  lemma HexValueMeans(c: char)
    ensures forall d | 0 <= d < 16 && IsHexDigit(c, d) :: HexValue(c) == d
    ensures HexValue(c) == 16 <==> c !in SMALL_DIGITS && c !in CAPITAL_DIGITS
  {
    forall d | 0 <= d < 16
      ensures IsHexDigit(c, d) <==> HexValue(c) == d
    {
      Digits16(d);
    }
    if c in SMALL_DIGITS {
      var d :| 0 <= d < 16 && c == SMALL_DIGITS[d];
      assert IsHexDigit(c, d);
    }
    if c in CAPITAL_DIGITS {
      var d :| 0 <= d < 16 && c == CAPITAL_DIGITS[d];
      assert IsHexDigit(c, d);
    }
    if HexValue(c) < 16 {
      assert IsHexDigit(c, HexValue(c));
    }
  }

  lemma ValueOfDigit(c: char, d: nat)
    requires d < 16 && IsHexDigit(c, d)
    ensures HexValue(c) == d
  {
    HexValueMeans(c);
    hide HexValue;
  }

  lemma HexDigitMeans(d: nat)
    requires d < 16
    ensures HexDigit(d) == SMALL_DIGITS[d]
  {
    Digits16(d);
  }

  /** parse_hex4 reads the number that four digits spell, whatever their case. */
  lemma Hex4Means(h: string, a: nat, b: nat, c: nat, d: nat)
    requires |h| >= 4 && a < 16 && b < 16 && c < 16 && d < 16
    requires IsHexDigit(h[0], a) && IsHexDigit(h[1], b) && IsHexDigit(h[2], c) && IsHexDigit(h[3], d)
    ensures Hex4(h) == 4096 * a + 256 * b + 16 * c + d
  {
    ValueOfDigit(h[0], a);
    ValueOfDigit(h[1], b);
    ValueOfDigit(h[2], c);
    ValueOfDigit(h[3], d);
    hide HexValue, IsHexDigit;
  }

  /** The escapes of section 7 of RFC 8259, and that any other letter stands for itself. */
  lemma UnescapeMeans(letter: char)
    ensures forall k | 0 <= k < 8 && letter == "\"\\/bfnrt"[k] ::
              Unescape(letter) as int == [0x22, 0x5C, 0x2F, 0x08, 0x0C, 0x0A, 0x0D, 0x09][k]
    ensures letter !in "\"\\/bfnrt" ==> Unescape(letter) == letter
  {
  }

  /** A letter escapes exactly the seven characters that have one, and stands for the one it escapes. */
  lemma EscapeLetterMeans(c: char)
    ensures EscapeLetter(c) != '\0' <==> c as int in {0x22, 0x5C, 0x08, 0x0C, 0x0A, 0x0D, 0x09}
    ensures EscapeLetter(c) != '\0' ==> EscapeLetter(c) in "\"\\bfnrt" && Unescape(EscapeLetter(c)) == c
  {
  }

  // ---- Parsing inverts printing ----

  lemma HexRoundTrip(n: nat)
    requires n < 0x10000
    ensures Hex4(HexDigits(n)) == n
    ensures forall k | 0 <= k < 4 :: HexValue(HexDigits(n)[k]) < 16
  {
    assert forall d | 0 <= d < 16 :: HexValue(HexDigit(d)) == d;
  }

  lemma UnescapeInvertsEscape(c: char)
    requires EscapeLetter(c) != '\0'
    ensures Unescape(EscapeLetter(c)) == c && EscapeLetter(c) != 'u'
  {
  }

  /** `h` spells `n` in four hexadecimal digits of either case. */
  ghost predicate Spells(h: string, n: nat) {
    |h| == 4 && (forall k | 0 <= k < 4 :: HexValue(h[k]) < 16) && Hex4(h) == n
  }

  lemma DecodeFour(h: string, rest: string)
    requires |h| == 4 && HasRoom(h)
    ensures var t := "\\u" + h + rest; HasRoom(t[2..]) && Hex4(t[2..]) == Hex4(h) && t[6..] == rest
  {
    var t := "\\u" + h + rest;
    assert t[2..] == h + rest;
    assert forall k | 0 <= k < 4 :: t[2..][k] == h[k];
  }

  lemma DecodeUnit(h: string, n: nat, rest: string)
    requires Spells(h, n)
    ensures var t := "\\u" + h + rest; HasRoom(t[2..]) && Hex4(t[2..]) == n && t[6..] == rest
  {
    DecodeFour(h, rest);
  }

  /** A scalar value of the basic plane, written as one escape. */
  lemma DecodeBasic(cp: nat, h: string, rest: string)
    requires IsScalar(cp) && 0 < cp < 0x10000 && Spells(h, cp)
    ensures DecodeBody("\\u" + h + rest) == Prepend(Encode(cp), DecodeBody(rest))
  {
    DecodeUnit(h, cp, rest);
    hide Hex4, HasRoom, Encode;
    assert DecodeEscape("\\u" + h + rest) == Done(Encode(cp), rest);
  }

  lemma PairArithmetic(v: nat)
    requires v < 0x100000
    ensures IsHighSurrogate(0xD800 + v / 0x400) && IsLowSurrogate(0xDC00 + v % 0x400)
    ensures (0xD800 + v / 0x400) % 0x400 * 0x400 + (0xDC00 + v % 0x400) % 0x400 == v
  {
    assert (0xD800 + v / 0x400) % 0x400 == v / 0x400 && (0xDC00 + v % 0x400) % 0x400 == v % 0x400;
  }

  /** A scalar value beyond the basic plane, written as a surrogate pair (section 2.2 of RFC 2781). */
  lemma DecodePair(cp: nat, high: string, low: string, rest: string)
    requires 0x10000 <= cp < 0x110000
    requires Spells(high, 0xD800 + (cp - 0x10000) / 0x400) && Spells(low, 0xDC00 + (cp - 0x10000) % 0x400)
    ensures DecodeBody("\\u" + high + "\\u" + low + rest) == Prepend(Encode(cp), DecodeBody(rest))
  {
    var r := "\\u" + low + rest;
    var t := "\\u" + high + r;
    var v := cp - 0x10000;
    assert "\\u" + high + "\\u" + low + rest == t;
    var uc, uc2 := 0xD800 + v / 0x400, 0xDC00 + v % 0x400;
    DecodeUnit(high, uc, r);
    DecodeUnit(low, uc2, rest);
    PairArithmetic(v);
    hide Hex4, HasRoom, Encode;
    assert DecodeEscape(t) == Done(Encode(cp), rest);
  }

  lemma DecodeShort(c: char, rest: string)
    requires EscapeLetter(c) != '\0'
    ensures DecodeBody(['\\', EscapeLetter(c)] + rest) == Prepend([c], DecodeBody(rest))
  {
    var t := ['\\', EscapeLetter(c)] + rest;
    UnescapeInvertsEscape(c);
    assert t[2..] == rest;
    hide EscapeLetter, Unescape;
    assert DecodeEscape(t) == Done([c], rest);
  }

  lemma DecodePlain(c: char, rest: string)
    requires c != '\"' && c != '\\'
    ensures DecodeBody([c] + rest) == Prepend([c], DecodeBody(rest))
  {
    assert ([c] + rest)[1..] == rest;
  }

  lemma DecodeControl(c: char, rest: string)
    requires 0 < c as int < 32
    ensures DecodeBody("\\u" + HexDigits(c as int) + rest) == Prepend([c], DecodeBody(rest))
  {
    HexRoundTrip(c as int);
    assert Encode(c as int) == [c];
    hide DecodeBody, HexDigits, Hex4, HexValue, Encode;
    DecodeBasic(c as int, HexDigits(c as int), rest);
  }

  lemma DecodeEscapedChar(c: char, rest: string)
    requires c != '\0'
    ensures DecodeBody(EscapeChar(c, true) + rest) == Prepend([c], DecodeBody(rest))
  {
    hide DecodeBody, HexDigits;
    if c as int > 31 && c != '\"' && c != '\\' {
      DecodePlain(c, rest);
    } else if EscapeLetter(c) != '\0' {
      DecodeShort(c, rest);
    } else {
      DecodeControl(c, rest);
    }
  }

  lemma DecodeQuote(rest: string)
    ensures DecodeBody("\"" + rest) == Done([], rest)
  {
    assert ("\"" + rest)[1..] == rest;
  }

  lemma EscapeSplit(s: string, rest: string)
    requires s != []
    ensures Escape(s, true) + rest == EscapeChar(s[0], true) + (Escape(s[1..], true) + rest)
  {
  }

  /** parse_string recovers every NUL-free byte string from what print_string_ptr wrote. */
  lemma {:induction false} DecodeInvertsEscape(s: string, rest: string)
    requires NulFree(s)
    ensures DecodeBody(Escape(s, true) + ("\"" + rest)) == Done(s, rest)
  {
    hide EscapeChar, DecodeBody;
    if s == [] {
      DecodeQuote(rest);
      assert Escape(s, true) + ("\"" + rest) == "\"" + rest;
    } else {
      DecodeInvertsEscape(s[1..], rest);
      DecodeEscapedChar(s[0], Escape(s[1..], true) + ("\"" + rest));
      EscapeSplit(s, "\"" + rest);
      assert [s[0]] + s[1..] == s;
    }
  }
}
