/**
 The loops of print_string_ptr and parse_string over their output buffers (cJSON/cJSON.c).
 */
module JsonStringCode {
  import opened Common
  import opened Unsigned
  import opened Utf8
  import opened JsonString

  /** `strcpy`: the characters and a terminating NUL. */
  method StrCpy(out: array<char>, at: nat, s: string)
    requires at + |s| < out.Length
    modifies out
    ensures out[..at + |s|] == old(out[..at]) + s && out[at + |s|] == '\0'
  {
    Copy(out, at, s);
    out[at + |s|] := '\0';
  }

  // ---- Printing ----

  /** What the measuring pass adds for one character. */
  function MeasureChar(c: char): nat {
    if EscapeLetter(c) != '\0' then 2 else if c as int < 32 then 6 else 1
  }

  function MeasureString(s: string): nat {
    if s == [] then 0 else MeasureChar(s[0]) + MeasureString(s[1..])
  }

  /** The measuring pass is exact for quoted output and an upper bound for raw output. */
  lemma {:induction false} MeasureIsLength(s: string)
    ensures |Escape(s, true)| == MeasureString(s)
    ensures |Escape(s, false)| <= MeasureString(s)
  {
    if s != [] {
      MeasureIsLength(s[1..]);
    }
  }

  lemma MeasureSplit(s: string, i: nat)
    requires i < |s|
    ensures MeasureString(s[i..]) == MeasureChar(s[i]) + MeasureString(s[i + 1..])
    ensures forall e :: Escape(s[i..], e) == EscapeChar(s[i], e) + Escape(s[i + 1..], e)
  {
    assert s[i..][1..] == s[i + 1..];
  }

  /** What follows the backslash of an escape. */
  function EscapeTail(c: char): string {
    if EscapeLetter(c) != '\0' then [EscapeLetter(c)] else "u" + HexDigits(c as int % 0x10000)
  }

  lemma EscapeSpelling(c: char)
    requires c as int < 32 || c == '\\' || c == '\"'
    ensures EscapeChar(c, true) == ['\\'] + EscapeTail(c)
    ensures |EscapeTail(c)| == MeasureChar(c) - 1
  {
  }

  /** The switch of the writing pass; `sprintf` and `strcpy` alike leave a NUL behind the text. */
  method WriteEscape(out: array<char>, at: nat, c: char) returns (at': nat)
    requires (c as int < 32 || c == '\\' || c == '\"') && at + MeasureChar(c) < out.Length
    modifies out
    ensures at' == at + MeasureChar(c)
    ensures out[..at'] == old(out[..at]) + EscapeChar(c, true)
  {
    hide EscapeChar, EscapeTail, MeasureChar;
    EscapeSpelling(c);
    out[at] := '\\';
    assert out[..at + 1] == old(out[..at]) + ['\\'];
    StrCpy(out, at + 1, EscapeTail(c));
    at' := at + MeasureChar(c);
    assert old(out[..at]) + ['\\'] + EscapeTail(c) == old(out[..at]) + (['\\'] + EscapeTail(c));
  }

  function Printed(s: string, escape: bool): string {
    if escape then Quoted(s) else Escape(s, false)
  }

  lemma PlainChar(c: char, escape: bool)
    requires c as int > 31 && (c != '\"' || !escape) && c != '\\'
    ensures EscapeChar(c, escape) == [c] && MeasureChar(c) >= 1
  {
  }

  lemma EscapedChar(c: char, escape: bool)
    requires !(c as int > 31 && (c != '\"' || !escape) && c != '\\')
    ensures EscapeChar(c, escape) == EscapeChar(c, true)
  {
  }

  /** The measuring pass. */
  method Measure(str: string) returns (len: nat)
    ensures len == MeasureString(str)
  {
    hide EscapeLetter, MeasureChar;
    len := 0;
    assert str[0..] == str;
    for i := 0 to |str|
      invariant len + MeasureString(str[i..]) == MeasureString(str)
    {
      MeasureSplit(str, i);
      len := len + MeasureChar(str[i]);
    }
  }

  /** The loop of the writing pass. */
  method WriteEscaped(out: array<char>, at: nat, str: string, escape: bool) returns (ptr2: nat)
    requires at + MeasureString(str) < out.Length
    modifies out
    ensures at <= ptr2 <= at + MeasureString(str)
    ensures out[..ptr2] == old(out[..at]) + Escape(str, escape)
  {
    hide EscapeChar, EscapeLetter, MeasureChar;
    var ptr := 0;
    ptr2 := at;
    assert str[0..] == str;
    while ptr < |str|
      invariant 0 <= ptr <= |str| && at <= ptr2
      invariant ptr2 + MeasureString(str[ptr..]) <= at + MeasureString(str)
      invariant out[..ptr2] + Escape(str[ptr..], escape) == old(out[..at]) + Escape(str, escape)
    {
      MeasureSplit(str, ptr);
      ghost var before := out[..ptr2];
      var c := str[ptr];
      if c as int > 31 && (c != '\"' || !escape) && c != '\\' {
        PlainChar(c, escape);
        out[ptr2] := c;
        ptr2 := ptr2 + 1;
        assert out[..ptr2] == before + [c];
      } else {
        EscapedChar(c, escape);
        ptr2 := WriteEscape(out, ptr2, c);
      }
      ptr := ptr + 1;
    }
  }

  /** `print_string_ptr`: measure, allocate `len + 3`, write. */
  method PrintStringPtr(str: string, escape: bool) returns (out: array<char>)
    requires NulFree(str)
    ensures |Printed(str, escape)| < out.Length
    ensures out[..|Printed(str, escape)|] == Printed(str, escape) && out[|Printed(str, escape)|] == '\0'
    ensures escape ==> out.Length == |Quoted(str)| + 1
  {
    hide Escape;
    var len := Measure(str);
    MeasureIsLength(str);
    out := new char[len + 3];
    var ptr2 := 0;
    if escape {
      out[0] := '\"';
      ptr2 := 1;
    }
    ptr2 := WriteEscaped(out, ptr2, str, escape);
    if escape {
      out[ptr2] := '\"';
      ptr2 := ptr2 + 1;
    }
    assert out[..ptr2] == Printed(str, escape);
    out[ptr2] := '\0';
  }

  // ---- Parsing ----

  /** Where a parse function leaves its cursor; `end` is the position of the remaining text. */
  datatype Result<+T> = Failed | Overran | Ok(value: T, end: nat)

  /** A result in terms of positions agrees with one in terms of remaining text. */
  ghost predicate Agrees<T(!new)>(r: Result<T>, p: Parsed<T>, s: string) {
    match p
    case Fail => r == Failed
    case Overrun => r == Overran
    case Done(value, rest) => r.Ok? && r.value == value && r.end <= |s| && s[r.end..] == rest
  }

  /** A string value in the text; anything but an opening quote is the source's failure. */
  function ParseText(t: string): Parsed<string> {
    if t != [] && t[0] == '\"' then DecodeBody(t[1..]) else Fail
  }

  function From(s: string, i: nat): string { if i <= |s| then s[i..] else [] }

  /** The counting pass: one per character or escaped pair, up to the closing quote. */
  function Counted(t: string): nat
    decreases |t|
  {
    if t == [] || t[0] == '\"' then 0
    else if t[0] == '\\' then 1 + Counted(From(t, 2))
    else 1 + Counted(t[1..])
  }

  lemma CountedPlain(t: string, n: nat)
    requires n <= |t| && forall k | 0 <= k < n :: t[k] != '\"' && t[k] != '\\'
    ensures Counted(t) == n + Counted(t[n..])
  {
    if n > 0 {
      CountedPlain(t[1..], n - 1);
      assert t[1..][n - 1..] == t[n..];
    } else {
      assert t[0..] == t;
    }
  }

  lemma CountedUnit(t: string)
    requires |t| >= 2 && t[0] == '\\' && HasRoom(t[2..])
    ensures Counted(t) == 5 + Counted(t[6..])
  {
    CountedPlain(t[2..], 4);
    assert t[2..][4..] == t[6..];
  }

  /** No escape writes more bytes than the counting pass has reserved for it. */
  lemma EscapeFits(t: string)
    requires t != [] && t[0] == '\\' && DecodeEscape(t).Done?
    ensures |DecodeEscape(t).value| + Counted(DecodeEscape(t).rest) <= Counted(t)
  {
    hide Hex4, Encode;
    if t[1] == 'u' {
      CountedUnit(t);
      if "\\u" <= t[6..] && HasRoom(t[6..][2..]) {
        CountedUnit(t[6..]);
      }
    }
  }

  /** Decoding a literal never exceeds the counted length. */
  lemma {:induction false} DecodedFits(t: string)
    requires DecodeBody(t).Done?
    ensures |DecodeBody(t).value| <= Counted(t)
    decreases |t|
  {
    if t != [] && t[0] == '\\' {
      EscapeFits(t);
      DecodedFits(DecodeEscape(t).rest);
    } else if t != [] && t[0] != '\"' {
      DecodedFits(t[1..]);
    }
  }

  /** One digit of parse_hex4. */
  method DigitOf(c: char) returns (ok: bool, d: bv32)
    ensures ok == (HexValue(c) < 16)
    ensures ok ==> d < 16 && Value(d) == HexValue(c)
  {
    hide Value, Word;
    d := 0;
    ok := true;
    if '0' <= c <= '9' {
      WordHolds(c as int - '0' as int);
      d := Word(c as int - '0' as int);
    } else if 'A' <= c <= 'F' {
      WordHolds(10 + (c as int - 'A' as int));
      d := Word(10 + (c as int - 'A' as int));
    } else if 'a' <= c <= 'f' {
      WordHolds(10 + (c as int - 'a' as int));
      d := Word(10 + (c as int - 'a' as int));
    } else {
      ok := false;
    }
  }

  /** `parse_hex4` */
  method ParseHex4(str: string) returns (h: bv32)
    requires |str| >= 4
    ensures h < 0x10000 && Value(h) == Hex4(str)
  {
    assert Value(0) == 0 by { Zero(); }
    hide Value, HexValue;
    var ok, d := DigitOf(str[0]);
    if !ok {
      return 0;
    }
    h := d;
    ok, d := DigitOf(str[1]);
    if !ok {
      return 0;
    }
    ShiftIn(h, d);
    h := (h << 4) + d;
    ok, d := DigitOf(str[2]);
    if !ok {
      return 0;
    }
    ShiftIn(h, d);
    h := (h << 4) + d;
    ok, d := DigitOf(str[3]);
    if !ok {
      return 0;
    }
    ShiftIn(h, d);
    h := (h << 4) + d;
  }

  /** The comparisons with the surrogate ranges. */
  method Classify(uc: bv32) returns (dropped: bool, high: bool)
    requires uc < 0x10000
    ensures dropped == (IsLowSurrogate(Value(uc)) || Value(uc) == 0) && high == IsHighSurrogate(Value(uc))
    ensures Value(uc) < 0x10000 && uc < 0x110000
  {
    hide Value;
    UnitCompares(uc);
    dropped := (0xDC00 <= uc <= 0xDFFF) || uc == 0;
    high := 0xD800 <= uc <= 0xDBFF;
  }

  /** The second half of a pair, joined to the first. */
  method JoinPair(uc: bv32, uc2: bv32) returns (ok: bool, r: bv32)
    requires uc < 0x10000 && uc2 < 0x10000
    ensures ok == IsLowSurrogate(Value(uc2))
    ensures r < 0x110000 && Value(r) == 0x10000 + Value(uc) % 0x400 * 0x400 + Value(uc2) % 0x400
  {
    hide Value;
    UnitCompares(uc2);
    ok := 0xDC00 <= uc2 <= 0xDFFF;
    PairMask(uc, uc2);
    r := 0x10000 + (((uc & 0x3FF) << 10) | (uc2 & 0x3FF));
  }

  lemma AnotherUnit(s: string, i: nat)
    requires i <= |s|
    ensures "\\u" <= s[i..] <==> At(s, i) == '\\' && At(s, i + 1) == 'u'
  {
  }

  /** The switch of parse_string at a backslash. */
  method CopyEscape(s: string, start: nat, out: array<char>, at: nat) returns (r: Result<nat>)
    requires start < |s| && s[start] == '\\' && at + Counted(s[start..]) < out.Length
    modifies out
    ensures match DecodeEscape(s[start..])
            case Done(bytes, rest) =>
              r.Ok? && r.end <= |s| && s[r.end..] == rest && r.value == at + |bytes| < out.Length
              && out[..r.value] == old(out[..at]) + bytes
            case _ => r == Overran
  {
    hide Encode, Hex4, Counted, Value;
    ghost var t := s[start..];
    if DecodeEscape(t).Done? {
      EscapeFits(t);
    }
    var ptr := start + 1;
    if ptr == |s| {
      return Overran;
    }
    assert t[2..] == s[start + 2..] && t[1] == s[ptr];
    if s[ptr] != 'u' {
      out[at] := Unescape(s[ptr]);
      assert out[..at + 1] == old(out[..at]) + [Unescape(s[ptr])];
      return Ok(at + 1, ptr + 1);
    }
    if !HasRoom(s[ptr + 1..]) {
      return Overran;
    }
    var uc := ParseHex4(s[ptr + 1..]);
    ptr := ptr + 4;
    assert t[6..] == s[ptr + 1..];
    var dropped, high := Classify(uc);
    if dropped {
      return Ok(at, ptr + 1);
    }
    if high {
      AnotherUnit(s, ptr + 1);
      if At(s, ptr + 1) != '\\' || At(s, ptr + 2) != 'u' {
        return Ok(at, ptr + 1);
      }
      assert "\\u" <= t[6..] && t[6..][2..] == s[ptr + 3..];
      if !HasRoom(s[ptr + 3..]) {
        return Overran;
      }
      var uc2 := ParseHex4(s[ptr + 3..]);
      ptr := ptr + 6;
      assert t[6..][6..] == s[ptr + 1..];
      var ok, joined := JoinPair(uc, uc2);
      if !ok {
        return Ok(at, ptr + 1);
      }
      uc := joined;
    }
    var len := Emit(out, at, uc);
    assert out[..at + len] == out[..at] + out[at..at + len];
    return Ok(at + len, ptr + 1);
  }

  /** The counting pass of parse_string. */
  method Count(s: string, start: nat) returns (len: nat)
    requires start <= |s| && NulFree(s)
    ensures len == Counted(s[start..])
  {
    len := 0;
    var ptr := start;
    while At(s, ptr) != '\"' && At(s, ptr) != '\0'
      invariant start <= ptr
      invariant len + Counted(From(s, ptr)) == Counted(s[start..])
      decreases |s| - ptr
    {
      len := len + 1;
      assert s[ptr..][1..] == s[ptr + 1..];
      assert From(s[ptr..], 2) == From(s, ptr + 2);
      ptr := if s[ptr] == '\\' then ptr + 2 else ptr + 1;
    }
  }

  /** What stands at the front of a literal: one byte or one escape. */
  function Unit(t: string): (r: Parsed<string>)
    requires t != []
  {
    if t[0] == '\\' then DecodeEscape(t) else Done([t[0]], t[1..])
  }

  lemma UnitStep(t: string)
    requires t != [] && t[0] != '\"'
    ensures !Unit(t).Fail? && (Unit(t).Done? ==> |Unit(t).rest| < |t|)
    ensures Counted(t) >= 1
    ensures Unit(t).Done? ==> |Unit(t).value| + Counted(Unit(t).rest) <= Counted(t)
    ensures DecodeBody(t) == if Unit(t).Done? then Prepend(Unit(t).value, DecodeBody(Unit(t).rest)) else Overrun
  {
    hide Hex4, Encode, HasRoom;
    if t[0] == '\\' && DecodeEscape(t).Done? {
      EscapeFits(t);
    }
  }

  /** One turn of the decoding loop. */
  method CopyUnit(s: string, ptr: nat, out: array<char>, at: nat) returns (r: Result<nat>)
    requires ptr < |s| && s[ptr] != '\"' && at + Counted(s[ptr..]) < out.Length
    modifies out
    ensures match Unit(s[ptr..])
            case Done(bytes, rest) =>
              r.Ok? && ptr < r.end <= |s| && s[r.end..] == rest && r.value == at + |bytes| < out.Length
              && out[..r.value] == old(out[..at]) + bytes
            case _ => r == Overran
  {
    hide DecodeEscape, Counted;
    UnitStep(s[ptr..]);
    if s[ptr] != '\\' {
      out[at] := s[ptr];
      assert out[..at + 1] == old(out[..at]) + [s[ptr]] && s[ptr..][1..] == s[ptr + 1..];
      return Ok(at + 1, ptr + 1);
    }
    r := CopyEscape(s, ptr, out, at);
  }

  /** `parse_string`: count, allocate `len + 1`, decode into the buffer. */
  method ParseString(s: string, start: nat) returns (r: Result<string>)
    requires start <= |s| && NulFree(s)
    ensures Agrees(r, ParseText(s[start..]), s)
  {
    if At(s, start) != '\"' {
      return Failed;
    }
    hide Unit, DecodeBody, Prepend, Counted;
    ghost var all := DecodeBody(s[start + 1..]);
    assert s[start..][1..] == s[start + 1..];
    var len := Count(s, start + 1);
    var out := new char[len + 1];
    var ptr, ptr2 := start + 1, 0;
    PrependNothing(all);
    while At(s, ptr) != '\"' && At(s, ptr) != '\0'
      invariant start < ptr <= |s| && 0 <= ptr2
      invariant ptr2 + Counted(s[ptr..]) <= len
      invariant Prepend(out[..ptr2], DecodeBody(s[ptr..])) == all
      decreases |s| - ptr
    {
      ghost var before, unit := out[..ptr2], Unit(s[ptr..]);
      UnitStep(s[ptr..]);
      var copied := CopyUnit(s, ptr, out, ptr2);
      if copied == Overran {
        PrependOverrun(before);
        return Overran;
      }
      PrependTwice(before, unit.value, DecodeBody(unit.rest));
      ptr, ptr2 := copied.end, copied.value;
    }
    LiteralEnds(s, ptr, out[..ptr2]);
    r := Ok(out[..ptr2], if At(s, ptr) == '\"' then ptr + 1 else ptr);
    out[ptr2] := '\0';
  }

  lemma PrependOverrun(a: string)
    ensures Prepend(a, Overrun) == Overrun
  {
  }

  /** Behind the loop: at the closing quote or the end of the text. */
  lemma LiteralEnds(s: string, ptr: nat, decoded: string)
    requires ptr <= |s| && NulFree(s) && (ptr < |s| ==> s[ptr] == '\"')
    ensures Prepend(decoded, DecodeBody(s[ptr..])) == Done(decoded, if ptr < |s| then s[ptr + 1..] else s[ptr..])
  {
    assert decoded + [] == decoded;
    assert ptr < |s| ==> s[ptr..][1..] == s[ptr + 1..];
  }

  lemma PrependNothing(p: Parsed<string>)
    ensures Prepend([], p) == p
  {
    if p.Done? {
      assert [] + p.value == p.value;
    }
  }

  lemma PrependTwice(a: string, b: string, p: Parsed<string>)
    ensures Prepend(a, Prepend(b, p)) == Prepend(a + b, p)
  {
    if p.Done? {
      assert a + (b + p.value) == a + b + p.value;
    }
  }
}
