/**
 The parser is complete: parse_value reads the texts of the wider grammar of JsonGrammar as what they mean.
 */
module JsonReading {
  import opened Common
  import opened Utf8
  import opened Ascii
  import opened JsonString
  import opened JsonStringCode
  import opened JsonText
  import opened JsonRoundTrip
  import opened JsonGrammar

  // ---- Numbers ----

  lemma {:induction false} TakeDigitsMeans(a: string, ds: string, rest: string)
    requires Digits(a) && Digits(ds) && !StartsWithDigit(rest)
    ensures Digits(a + ds) && TakeDigits(DigitsMean(a), ds + rest) == Read(DigitsMean(a + ds), rest)
    decreases |ds|
  {
    if ds == [] {
      assert ds + rest == rest && a + ds == a;
    } else {
      var a' := a + [ds[0]];
      assert a'[..|a|] == a && a' + ds[1..] == a + ds && (ds + rest)[1..] == ds[1..] + rest;
      TakeDigitsMeans(a', ds[1..], rest);
    }
  }

  lemma DigitsTaken(ds: string, rest: string)
    requires Digits(ds) && !StartsWithDigit(rest)
    ensures TakeDigits(0, ds + rest) == Read(DigitsMean(ds), rest)
  {
    TakeDigitsMeans([], ds, rest);
    assert [] + ds == ds;
  }

  // Where the parts of a numeral end: what follows must not continue them.

  predicate WholeEnds(whole: string, rest: string) {
    StartsWithDigit(rest) ==> whole == "0" && rest[0] == '0'
  }

  predicate FractionEnds(fraction: string, rest: string) {
    if fraction == [] then !(StartsWith(rest, '.') && StartsWithDigit(rest[1..])) else !StartsWithDigit(rest)
  }

  predicate ExponentEnds(e: Exponent, rest: string) {
    if e.NoExponent? then !StartsWith(rest, 'e') && !StartsWith(rest, 'E')
    else !StartsWithDigit(rest) && (e.sign == [] && e.digits == [] ==> !StartsWith(rest, '+') && !StartsWith(rest, '-'))
  }

  /** The text behind a value does not continue it. */
  predicate Ends(s: Syntax, rest: string) {
    match s
    case Numeral(_, whole, fraction, exponent) =>
      && ExponentEnds(exponent, rest)
      && (exponent.NoExponent? ==> FractionEnds(fraction, rest) && (fraction == [] ==> WholeEnds(whole, rest)))
    case Unclosed(_) => rest == []
    case _ => true
  }

  lemma TakeZeroMeans(ds: string, rest: string)
    requires Digits(ds) && (if ds == [] then StartsWithDigit(rest) ==> rest[0] == '0' else ds[0] != '0' && !StartsWithDigit(rest))
    ensures Digits("0" + ds) && TakeWhole("0" + ds + rest) == Read(DigitsMean("0" + ds), rest)
  {
    ZeroIsSkipped(ds + rest);
    Assoc("0", ds, rest);
    hide TakeDigits, TakeWhole;
    assert DigitsMean("0") == 0;
    if ds == [] {
      assert "0" + ds == "0" && ds + rest == rest;
    } else {
      assert (ds + rest)[0] == ds[0];
      TakeDigitsMeans("0", ds, rest);
    }
  }

  lemma ZeroIsSkipped(t: string)
    ensures TakeWhole("0" + t) == if StartsWithDigit(t) && t[0] != '0' then TakeDigits(0, t) else Read(0, t)
  {
    hide TakeDigits;
    assert ("0" + t)[1..] == t;
  }

  lemma NothingTaken(rest: string)
    requires !StartsWithDigit(rest)
    ensures TakeWhole(rest) == Read(0, rest)
  {
  }

  lemma TakeOthersMeans(whole: string, rest: string)
    requires Digits(whole) && whole != [] && whole[0] != '0' && !StartsWithDigit(rest)
    ensures TakeWhole(whole + rest) == Read(DigitsMean(whole), rest)
  {
    hide TakeDigits, DigitsMean;
    assert (whole + rest)[0] == whole[0];
    DigitsTaken(whole, rest);
  }

  lemma TakeWholeMeans(whole: string, rest: string)
    requires Digits(whole) && (|whole| >= 2 && whole[0] == '0' ==> whole[1] != '0') && WholeEnds(whole, rest)
    ensures TakeWhole(whole + rest) == Read(DigitsMean(whole), rest)
  {
    hide TakeDigits, TakeWhole;
    if whole == [] {
      NothingTaken(rest);
      assert whole + rest == rest;
    } else if whole[0] == '0' {
      hide DigitsMean;
      assert whole == "0" + whole[1..];
      TakeZeroMeans(whole[1..], rest);
    } else {
      TakeOthersMeans(whole, rest);
    }
  }

  lemma TakeFractionMeans(whole: string, fraction: string, rest: string)
    requires Digits(whole) && Digits(fraction) && FractionEnds(fraction, rest)
    ensures Digits(whole + fraction)
    ensures TakeFraction(DigitsMean(whole), SpellFraction(fraction) + rest) == Read(DigitsMean(whole + fraction), rest)
  {
    hide TakeDigits;
    if fraction == [] {
      assert whole + fraction == whole && [] + rest == rest;
    } else {
      assert ("." + fraction + rest)[1..] == fraction + rest;
      TakeDigitsMeans(whole, fraction, rest);
    }
  }

  lemma BehindMark(mark: char, sign: string, digits: string, rest: string)
    ensures var t := [mark] + sign + digits + rest;
            && t[0] == mark && t[1..] == sign + (digits + rest)
            && (|sign| == 1 ==> t[2..] == digits + rest && t[1..][0] == sign[0])
            && (sign == [] ==> t[1..] == digits + rest)
  {
  }

  lemma SplitExponent(e: Exponent, rest: string)
    requires ReadableExponent(e) && e.Exponent? && ExponentEnds(e, rest)
    ensures var t := SpellExponent(e) + rest;
            && StartsWith(t, e.mark)
            && StartsWith(t[1..], '+') == (e.sign == "+") && StartsWith(t[1..], '-') == (e.sign == "-")
            && (if e.sign == [] then t[1..] else t[2..]) == e.digits + rest
  {
    BehindMark(e.mark, e.sign, e.digits, rest);
    var t := SpellExponent(e) + rest;
    if e.sign == [] {
      assert e.digits != [] ==> t[1..][0] == e.digits[0];
      assert e.digits == [] ==> t[1..] == rest;
    }
  }

  lemma TakeExponentMeans(e: Exponent, rest: string)
    requires ReadableExponent(e) && ExponentEnds(e, rest)
    ensures TakeExponent(SpellExponent(e) + rest) == Read(ExponentMeans(e), rest)
  {
    hide TakeDigits, SpellExponent, Digits;
    if e.NoExponent? {
      assert SpellExponent(e) + rest == rest by { NothingSpelled(e, rest); }
    } else {
      var t := SpellExponent(e) + rest;
      SplitExponent(e, rest);
      DigitsTaken(e.digits, rest);
      assert e.sign == [] || e.sign == "+" || e.sign == "-";
    }
  }

  lemma NothingSpelled(e: Exponent, rest: string)
    requires e.NoExponent?
    ensures SpellExponent(e) + rest == rest
  {
  }

  lemma NumeralText(s: Syntax, rest: string)
    requires s.Numeral? && Readable(s)
    ensures var t := Spell(s) + rest;
            && (if s.minus then t[1..] else t) == s.whole + (SpellFraction(s.fraction) + (SpellExponent(s.exponent) + rest))
            && (StartsWith(t, '-') <==> s.minus)
  {
    hide SpellFraction, SpellExponent, ReadableExponent;
    var f, e := SpellFraction(s.fraction), SpellExponent(s.exponent);
    var t := Spell(s) + rest;
    assert (if s.minus then t[1..] else t) == s.whole + (f + (e + rest));
    assert s.minus ==> t[0] == '-';
    assert !s.minus ==> t[0] == s.whole[0];
  }

  /** What follows the whole part, and the fraction, does not continue them. */
  lemma NumeralParts(s: Syntax, rest: string)
    requires s.Numeral? && Readable(s) && Ends(s, rest)
    ensures var e := SpellExponent(s.exponent) + rest;
            FractionEnds(s.fraction, e) && WholeEnds(s.whole, SpellFraction(s.fraction) + e)
    ensures |SpellFraction(s.fraction)| == if s.fraction == [] then 0 else |s.fraction| + 1
  {
    var e := SpellExponent(s.exponent) + rest;
    if s.exponent.Exponent? {
      assert e[0] == s.exponent.mark;
    } else {
      assert e == rest;
    }
    if s.fraction == [] {
      assert SpellFraction(s.fraction) + e == e;
    }
  }

  lemma NumberOfParts(t: string, minus: bool, n: int, f: string, m: int, e: string, x: int, rest: string)
    requires StartsWith(t, '-') == minus && TakeWhole(if minus then t[1..] else t) == Read(n, f)
    requires TakeFraction(n, f) == Read(m, e) && TakeExponent(e) == Read(x, rest)
    ensures ParseNumber(t) == Done(Number(if minus then -m else m, (if e == f && m == n then 0 else |e| + 1 - |f|) + x), rest)
  {
    hide TakeWhole, TakeFraction, TakeExponent;
  }

  /** parse_number computes the number a numeral spells: its digits and its power of ten. */
  lemma NumeralMeans(s: Syntax, rest: string)
    requires s.Numeral? && Readable(s) && Ends(s, rest)
    ensures ParseNumber(Spell(s) + rest) == Done(Meaning(s), rest)
  {
    hide Digits, ReadableExponent, DigitsMean, ExponentMeans, SpellFraction, SpellExponent, Spell;
    hide TakeWhole, TakeFraction, TakeExponent, WholeEnds, FractionEnds, ExponentEnds, ParseNumber;
    var e := SpellExponent(s.exponent) + rest;
    var f := SpellFraction(s.fraction) + e;
    NumeralText(s, rest);
    NumeralParts(s, rest);
    TakeExponentMeans(s.exponent, rest);
    TakeFractionMeans(s.whole, s.fraction, e);
    TakeWholeMeans(s.whole, f);
    var n, m := DigitsMean(s.whole), DigitsMean(s.whole + s.fraction);
    NumberOfParts(Spell(s) + rest, s.minus, n, f, m, e, ExponentMeans(s.exponent), rest);
    NoFraction(s.whole, s.fraction, e);
  }

  lemma NoFraction(whole: string, fraction: string, e: string)
    ensures fraction == [] ==> whole + fraction == whole && SpellFraction(fraction) + e == e
  {
  }

  // ---- Strings ----

  lemma ShortDecodes(letter: char, rest: string)
    requires letter != 'u'
    ensures DecodeBody(['\\', letter] + rest) == Prepend([Unescape(letter)], DecodeBody(rest))
  {
    var t := ['\\', letter] + rest;
    assert t[2..] == rest;
    hide Unescape;
    assert DecodeEscape(t) == Done([Unescape(letter)], rest);
  }

  lemma DroppedDecodes(h: string, rest: string)
    requires FourCharacters(h) && (Hex4(h) == 0 || IsLowSurrogate(Hex4(h)))
    ensures DecodeBody("\\u" + h + rest) == Prepend([], DecodeBody(rest))
  {
    DecodeFour(h, rest);
    hide Hex4, HasRoom;
    assert DecodeEscape("\\u" + h + rest) == Done([], rest);
  }

  lemma LoneDecodes(h: string, rest: string)
    requires FourCharacters(h) && IsHighSurrogate(Hex4(h)) && !("\\u" <= rest)
    ensures DecodeBody("\\u" + h + rest) == Prepend([], DecodeBody(rest))
  {
    DecodeFour(h, rest);
    hide Hex4, HasRoom;
    assert DecodeEscape("\\u" + h + rest) == Done([], rest);
  }

  lemma UnpairedDecodes(h: string, other: string, rest: string)
    requires FourCharacters(h) && IsHighSurrogate(Hex4(h)) && FourCharacters(other) && !IsLowSurrogate(Hex4(other))
    ensures DecodeBody("\\u" + h + "\\u" + other + rest) == Prepend([], DecodeBody(rest))
  {
    DecodeFour(h, "\\u" + other + rest);
    DecodeFour(other, rest);
    hide Hex4, HasRoom;
    var t := "\\u" + h + "\\u" + other + rest;
    assert t == "\\u" + h + ("\\u" + other + rest);
    assert DecodeEscape(t) == Done([], rest);
  }

  lemma DigitsAll(h: string)
    requires |h| == 4 && Hex4(h) != 0
    ensures Spells(h, Hex4(h))
  {
  }

  lemma UnitDecodes(u: Unit, rest: string)
    requires ReadableUnit(u) && (u.Lone? ==> !("\\u" <= rest))
    ensures DecodeBody(SpellUnit(u) + rest) == Prepend(UnitMeans(u), DecodeBody(rest))
  {
    hide DecodeBody, Hex4, HexValue, Encode, Unescape;
    match u
    case Plain(c) => DecodePlain(c, rest);
    case Short(letter) => ShortDecodes(letter, rest);
    case Basic(h) =>
      if Hex4(h) == 0 || IsLowSurrogate(Hex4(h)) {
        DroppedDecodes(h, rest);
      } else {
        DigitsAll(h);
        DecodeBasic(Hex4(h), h, rest);
      }
    case Pair(high, low) =>
      var v := (Hex4(high) - 0xD800) * 0x400 + (Hex4(low) - 0xDC00);
      DigitsAll(high);
      DigitsAll(low);
      assert v / 0x400 == Hex4(high) - 0xD800 && v % 0x400 == Hex4(low) - 0xDC00;
      DecodePair(0x10000 + v, high, low, rest);
    case Lone(high) => LoneDecodes(high, rest);
    case Unpaired(high, other) => UnpairedDecodes(high, other, rest);
  }

  /** A literal ends with its closing quote, or with the text. */
  predicate Closes(tail: string, rest: string) { tail == "\"" + rest || (tail == [] && rest == []) }

  lemma NoEscape(us: seq<Unit>, tail: string, rest: string)
    requires ReadableUnits(us) && us != [] && Closes(tail, rest)
    ensures us[0].Lone? ==> !("\\u" <= SpellUnits(us[1..]) + tail)
  {
    var t := SpellUnits(us[1..]) + tail;
    if |us| == 1 {
      assert us[1..] == [] && t == tail;
      assert tail != [] ==> tail[0] == '\"';
    } else if us[0].Lone? {
      assert SpellUnits(us[1..]) == SpellUnit(us[1]) + SpellUnits(us[1..][1..]);
      assert t[0] == SpellUnit(us[1])[0];
      assert us[1].Short? ==> t[1] == us[1].letter;
    }
  }

  lemma {:induction false} UnitsDecode(us: seq<Unit>, tail: string, rest: string)
    requires ReadableUnits(us) && Closes(tail, rest)
    ensures DecodeBody(SpellUnits(us) + tail) == Done(UnitsMean(us), rest)
  {
    hide DecodeBody, SpellUnit, UnitMeans, ReadableUnit;
    if us == [] {
      BodyEnds(tail, rest);
      assert SpellUnits(us) + tail == tail;
    } else {
      UnitsDecode(us[1..], tail, rest);
      Assoc(SpellUnit(us[0]), SpellUnits(us[1..]), tail);
      NoEscape(us, tail, rest);
      UnitDecodes(us[0], SpellUnits(us[1..]) + tail);
    }
  }

  lemma BodyEnds(tail: string, rest: string)
    requires Closes(tail, rest)
    ensures DecodeBody(tail) == Done([], rest)
  {
    DecodeQuote(rest);
  }

  /** parse_string computes the bytes a literal denotes and stops behind it. */
  lemma LiteralMeans(us: seq<Unit>, rest: string)
    requires ReadableUnits(us)
    ensures ParseText(SpellLiteral(us) + rest) == Done(UnitsMean(us), rest)
    ensures ParseValue(SpellLiteral(us) + rest) == Done(Text(UnitsMean(us)), rest)
  {
    hide DecodeBody, SpellUnits, UnitsMean, ParseText, ParseValue, ReadableUnits;
    UnitsDecode(us, "\"" + rest, rest);
    BehindQuote(SpellUnits(us), rest);
    ParseTextValue(SpellLiteral(us) + rest, UnitsMean(us), rest);
  }

  lemma UnclosedMeans(us: seq<Unit>)
    requires ReadableUnits(us)
    ensures ParseValue("\"" + SpellUnits(us)) == Done(Text(UnitsMean(us)), [])
  {
    hide DecodeBody, SpellUnits, UnitsMean, ParseText, ParseValue, ReadableUnits;
    UnitsDecode(us, [], []);
    assert ("\"" + SpellUnits(us))[1..] == SpellUnits(us) == SpellUnits(us) + [];
    ParseTextValue("\"" + SpellUnits(us), UnitsMean(us), []);
  }

  lemma BehindQuote(inside: string, rest: string)
    ensures var t := "\"" + inside + "\"" + rest; StartsWith(t, '\"') && t[1..] == inside + ("\"" + rest)
  {
  }

  /** Two spellings of a string that differ in the case of hexadecimal digits only. */
  ghost predicate Recased(h: string, h': string) {
    |h| == |h'| == 4 && forall k | 0 <= k < 4 :: exists d :: 0 <= d < 16 && IsHexDigit(h[k], d) && IsHexDigit(h'[k], d)
  }

  ghost predicate RecasedUnit(u: Unit, u': Unit) {
    match u
    case Basic(h) => u'.Basic? && Recased(h, u'.hex)
    case Pair(h, l) => u'.Pair? && Recased(h, u'.high) && Recased(l, u'.low)
    case Lone(h) => u'.Lone? && Recased(h, u'.high)
    case Unpaired(h, o) => u'.Unpaired? && Recased(h, u'.high) && Recased(o, u'.other)
    case _ => u' == u
  }

  lemma RecasedValue(h: string, h': string)
    requires Recased(h, h')
    ensures Hex4(h) == Hex4(h') && IsHex(h) && IsHex(h')
  {
    forall k | 0 <= k < 4
      ensures HexValue(h[k]) == HexValue(h'[k]) < 16
    {
      var d :| 0 <= d < 16 && IsHexDigit(h[k], d) && IsHexDigit(h'[k], d);
      ValueOfDigit(h[k], d);
      ValueOfDigit(h'[k], d);
    }
    hide HexValue;
  }

  lemma RecasedUnitMeans(u: Unit, u': Unit)
    requires ValidUnit(u) && RecasedUnit(u, u')
    ensures ValidUnit(u') && UnitMeans(u') == UnitMeans(u)
  {
    hide Recased, Hex4, IsHex, Encode, ReadableUnit;
    match u
    case Basic(h) => RecasedValue(h, u'.hex);
    case Pair(h, l) =>
      RecasedValue(h, u'.high);
      RecasedValue(l, u'.low);
    case Lone(h) => RecasedValue(h, u'.high);
    case Unpaired(h, o) =>
      RecasedValue(h, u'.high);
      RecasedValue(o, u'.other);
    case _ =>
  }

  /** What a string means does not depend on the case of its digits. */
  lemma {:induction false} RecasedMeans(us: seq<Unit>, us': seq<Unit>)
    requires ValidUnits(us) && |us'| == |us| && forall k | 0 <= k < |us| :: RecasedUnit(us[k], us'[k])
    ensures ValidUnits(us') && UnitsMean(us') == UnitsMean(us)
  {
    forall k | 0 <= k < |us|
      ensures ValidUnit(us'[k])
    {
      RecasedUnitMeans(us[k], us'[k]);
    }
    LoneStays(us, us');
    if us != [] {
      RecasedUnitMeans(us[0], us'[0]);
      hide ValidUnit, RecasedUnit, UnitMeans;
      RecasedMeans(us[1..], us'[1..]);
    }
  }

  lemma LoneStays(us: seq<Unit>, us': seq<Unit>)
    requires LoneIsLone(us) && |us'| == |us| && forall k | 0 <= k < |us| :: RecasedUnit(us[k], us'[k])
    ensures LoneIsLone(us')
  {
    hide Recased;
    forall k | 0 <= k < |us'| - 1 && us'[k].Lone?
      ensures us'[k + 1].Plain? || us'[k + 1].Short?
    {
      assert RecasedUnit(us[k], us'[k]) && RecasedUnit(us[k + 1], us'[k + 1]);
    }
  }

  /** An escape of four digits means the character of that number (section 7 of RFC 8259). */
  lemma EscapedScalarMeans(h: string, a: nat, b: nat, c: nat, d: nat)
    requires |h| == 4 && a < 16 && b < 16 && c < 16 && d < 16
    requires IsHexDigit(h[0], a) && IsHexDigit(h[1], b) && IsHexDigit(h[2], c) && IsHexDigit(h[3], d)
    ensures var n := 4096 * a + 256 * b + 16 * c + d;
            n != 0 && !(0xD800 <= n < 0xE000) ==> ValidUnit(Basic(h)) && UnitMeans(Basic(h)) == Encode(n)
  {
    Hex4Means(h, a, b, c, d);
    DigitsAreHex(h, a, b, c, d);
    hide IsHexDigit, IsHex, Hex4, Encode, ReadableUnit;
  }

  lemma DigitsAreHex(h: string, a: nat, b: nat, c: nat, d: nat)
    requires |h| == 4 && a < 16 && b < 16 && c < 16 && d < 16
    requires IsHexDigit(h[0], a) && IsHexDigit(h[1], b) && IsHexDigit(h[2], c) && IsHexDigit(h[3], d)
    ensures IsHex(h)
  {
    ValueOfDigit(h[0], a);
    ValueOfDigit(h[1], b);
    ValueOfDigit(h[2], c);
    ValueOfDigit(h[3], d);
    hide HexValue, IsHexDigit;
  }

  /** print_string_ptr writes every byte in the shortest way JSON has for it. */
  lemma ShortestEscape(c: char, u: Unit)
    requires ValidUnit(u) && UnitMeans(u) == [c]
    ensures |EscapeChar(c, true)| <= |SpellUnit(u)|
  {
    hide Hex4, Encode, HexDigits;
    if u.Short? {
      UnescapeMeans(u.letter);
      EscapeLetterMeans(c);
    }
  }

  // ---- Values ----

  lemma EndsBehind(s: Syntax, b: string, x: string)
    requires Blank(b) && Visible(x) && (x[0] == ',' || x[0] == ']' || x[0] == '}') && !s.Unclosed?
    ensures Ends(s, b + x)
  {
    if b == [] {
      assert b + x == x;
    } else {
      assert (b + x)[0] == b[0];
    }
  }

  lemma EndsValid(s: Syntax, rest: string)
    requires Valid(s) && EndsNumber(rest)
    ensures Ends(s, rest)
  {
  }

  lemma SpelledIsVisible(s: Syntax, rest: string)
    requires Readable(s)
    ensures Visible(Spell(s) + rest) && (Spell(s) + rest)[0] != ']' && (Spell(s) + rest)[0] != '}'
  {
    assert Spell(s) != [] && (Spell(s) + rest)[0] == Spell(s)[0];
  }

  lemma NumeralParses(s: Syntax, rest: string)
    requires s.Numeral? && Readable(s) && Ends(s, rest)
    ensures ParseValue(Spell(s) + rest) == Done(Meaning(s), rest)
  {
    hide ParseNumber, ParseValue, Spell, Ends;
    NumeralMeans(s, rest);
    NumeralBegins(s, rest);
    ParseNumberValue(Spell(s) + rest);
  }

  lemma NumeralBegins(s: Syntax, rest: string)
    requires s.Numeral? && Readable(s)
    ensures StartsWith(Spell(s) + rest, '-') || StartsWithDigit(Spell(s) + rest)
  {
    hide SpellFraction, SpellExponent;
    assert (Spell(s) + rest)[0] == Spell(s)[0];
  }

  /** The parser is complete: whatever is spelled according to the wider grammar, followed by anything
      that does not continue it, is read as what it means, and exactly that much is read. */
  lemma {:induction false} ReadSpelled(s: Syntax, rest: string)
    requires Readable(s) && Ends(s, rest)
    ensures ParseValue(Spell(s) + rest) == Done(Meaning(s), rest)
    decreases s, 0
  {
    hide ParseValue, ParseItems, ParseMembers, Ends;
    match s
    case NullWord => ParseLiterals(rest);
    case FalseWord => ParseLiterals(rest);
    case TrueWord => ParseLiterals(rest);
    case Numeral(_, _, _, _) => NumeralParses(s, rest);
    case Literal(units) => LiteralMeans(units, rest);
    case Unclosed(units) =>
      NothingBehind(s, rest);
      UnclosedMeans(units);
    case Brackets(blank, elements) => BracketsParse(blank, elements, rest);
    case Braces(blank, fields) => BracesParse(blank, fields, rest);
  }

  lemma NothingBehind(s: Syntax, rest: string)
    requires s.Unclosed? && Ends(s, rest)
    ensures rest == [] && Spell(s) + rest == Spell(s)
  {
  }

  /** In particular every JSON text is read as what it means. */
  lemma ParseSpelled(s: Syntax, rest: string)
    requires Valid(s) && EndsNumber(rest)
    ensures ParseValue(Spell(s) + rest) == Done(Meaning(s), rest)
  {
    EndsValid(s, rest);
    ReadSpelled(s, rest);
  }

  /** The elements from the first value on, followed by `tail`. */
  function ElementsFrom(es: Elements, tail: string): string
    requires es.Element?
    decreases es
  {
    Spell(es.value) + (es.behind + BehindElement(es, tail))
  }

  function BehindElement(es: Elements, tail: string): string
    requires es.Element?
    decreases es, 0
  {
    if es.next.NoElement? then tail else "," + (es.next.before + ElementsFrom(es.next, tail))
  }

  lemma {:induction false} ElementsText(es: Elements, tail: string)
    requires es.Element?
    ensures SpellElements(es) + tail == es.before + ElementsFrom(es, tail)
    decreases es
  {
    hide Spell;
    var more := if es.next.NoElement? then [] else "," + SpellElements(es.next);
    if es.next.Element? {
      ElementsText(es.next, tail);
      Assoc(",", SpellElements(es.next), tail);
    } else {
      assert [] + tail == tail;
    }
    Regroup4(es.before, Spell(es.value), es.behind, more, tail);
  }

  lemma Regroup4(a: string, b: string, c: string, d: string, tail: string)
    ensures a + (b + (c + d)) + tail == a + (b + (c + (d + tail)))
  {
  }

  lemma {:induction false} ElementsParse(b: string, es: Elements, rest: string)
    requires Blank(b) && es.Element? && ReadableElements(es)
    ensures ParseItems(b + ElementsFrom(es, "]" + rest)) == Done(ElementsMean(es), rest)
    decreases es, 1
  {
    hide ParseValue, ParseItems, ParseMembers, Spell, Meaning, Readable, Blank, Ends;
    var x := BehindElement(es, "]" + rest);
    assert es.next.NoElement? ==> x[1..] == rest;
    EndsBehind(es.value, es.behind, x);
    ReadSpelled(es.value, es.behind + x);
    SpelledIsVisible(es.value, es.behind + x);
    if es.next.Element? {
      assert x[1..] == es.next.before + ElementsFrom(es.next, "]" + rest);
      ElementsParse(es.next.before, es.next, rest);
    }
    ParseItem(b, ElementsFrom(es, "]" + rest), Meaning(es.value), es.behind, x);
  }

  lemma {:induction false} BracketsParse(blank: string, es: Elements, rest: string)
    requires Readable(Brackets(blank, es))
    ensures ParseValue(Spell(Brackets(blank, es)) + rest) == Done(Array(ElementsMean(es)), rest)
    decreases es, 2
  {
    hide ParseValue, ParseItems, ParseMembers, Blank, ElementsFrom;
    var t := Spell(Brackets(blank, es)) + rest;
    Bracketed("[", blank, SpellElements(es), "]", rest);
    if es.NoElement? {
      assert [] + ("]" + rest) == "]" + rest;
      ParseEmptyArray(blank, rest);
    } else {
      var tail := "]" + rest;
      ElementsText(es, tail);
      assert [] + (SpellElements(es) + tail) == SpellElements(es) + tail;
      ElementsParse([], es, rest);
      assert [] + ElementsFrom(es, tail) == ElementsFrom(es, tail);
      ElementsVisible(es, tail);
      ParseArray(es.before, ElementsFrom(es, tail), ElementsMean(es), rest);
    }
  }

  lemma Bracketed(open: string, blank: string, inside: string, close: string, rest: string)
    ensures open + (blank + (inside + close)) + rest == open + (blank + (inside + (close + rest)))
  {
  }

  lemma ElementsVisible(es: Elements, tail: string)
    requires es.Element? && ReadableElements(es)
    ensures Visible(ElementsFrom(es, tail)) && ElementsFrom(es, tail)[0] != ']'
  {
    hide Spell;
    SpelledIsVisible(es.value, es.behind + BehindElement(es, tail));
  }

  /** The members from the first name on, followed by `tail`. */
  function FieldsFrom(fs: Fields, tail: string): string
    requires fs.Field?
    decreases fs
  {
    SpellLiteral(fs.name) + (fs.behindName + (":" + (fs.beforeValue + (Spell(fs.value) + (fs.behind + BehindField(fs, tail))))))
  }

  function BehindField(fs: Fields, tail: string): string
    requires fs.Field?
    decreases fs, 0
  {
    if fs.next.NoField? then tail else "," + (fs.next.before + FieldsFrom(fs.next, tail))
  }

  lemma {:induction false} FieldsText(fs: Fields, tail: string)
    requires fs.Field?
    ensures SpellFields(fs) + tail == fs.before + FieldsFrom(fs, tail)
    decreases fs
  {
    hide Spell, SpellLiteral;
    var more := if fs.next.NoField? then [] else "," + SpellFields(fs.next);
    if fs.next.Field? {
      FieldsText(fs.next, tail);
      Assoc(",", SpellFields(fs.next), tail);
    } else {
      assert [] + tail == tail;
    }
    var v := Spell(fs.value);
    Regroup4(":", fs.beforeValue, v, fs.behind + more, tail);
    Assoc(fs.behind, more, tail);
    Regroup4(fs.before, SpellLiteral(fs.name), fs.behindName, ":" + (fs.beforeValue + (v + (fs.behind + more))), tail);
  }

  lemma {:induction false} FieldsParse(b: string, fs: Fields, rest: string)
    requires Blank(b) && fs.Field? && ReadableFields(fs)
    ensures ParseMembers(b + FieldsFrom(fs, "}" + rest)) == Done(FieldsMean(fs), rest)
    decreases fs, 1
  {
    hide ParseValue, ParseItems, ParseMembers, ParseText, Spell, SpellLiteral, Meaning, Readable, ReadableUnits, UnitsMean;
    hide Blank, Ends;
    var x := BehindField(fs, "}" + rest);
    assert fs.next.NoField? ==> x[1..] == rest;
    EndsBehind(fs.value, fs.behind, x);
    ReadSpelled(fs.value, fs.behind + x);
    SpelledIsVisible(fs.value, fs.behind + x);
    var text := Spell(fs.value) + (fs.behind + x);
    var t := FieldsFrom(fs, "}" + rest);
    LiteralMeans(fs.name, fs.behindName + (":" + (fs.beforeValue + text)));
    LiteralIsVisible(fs.name, fs.behindName + (":" + (fs.beforeValue + text)));
    if fs.next.Field? {
      assert x[1..] == fs.next.before + FieldsFrom(fs.next, "}" + rest);
      FieldsParse(fs.next.before, fs.next, rest);
    }
    ParseField(b, t, UnitsMean(fs.name), fs.behindName, fs.beforeValue, text, Meaning(fs.value), fs.behind, x);
  }

  lemma LiteralIsVisible(us: seq<Unit>, rest: string)
    ensures Visible(SpellLiteral(us) + rest) && (SpellLiteral(us) + rest)[0] == '\"'
  {
  }

  lemma {:induction false} BracesParse(blank: string, fs: Fields, rest: string)
    requires Readable(Braces(blank, fs))
    ensures ParseValue(Spell(Braces(blank, fs)) + rest) == Done(Object(FieldsMean(fs)), rest)
    decreases fs, 2
  {
    hide ParseValue, ParseItems, ParseMembers, Blank, FieldsFrom;
    Bracketed("{", blank, SpellFields(fs), "}", rest);
    if fs.NoField? {
      assert [] + ("}" + rest) == "}" + rest;
      ParseEmptyObject(blank, rest);
    } else {
      var tail := "}" + rest;
      FieldsText(fs, tail);
      assert [] + (SpellFields(fs) + tail) == SpellFields(fs) + tail;
      FieldsParse([], fs, rest);
      assert [] + FieldsFrom(fs, tail) == FieldsFrom(fs, tail);
      FieldsVisible(fs, tail);
      ParseObject(fs.before, FieldsFrom(fs, tail), FieldsMean(fs), rest);
    }
  }

  lemma FieldsVisible(fs: Fields, tail: string)
    requires fs.Field?
    ensures Visible(FieldsFrom(fs, tail)) && FieldsFrom(fs, tail)[0] != '}'
  {
    hide SpellLiteral, Spell;
    LiteralIsVisible(fs.name, fs.behindName + (":" + (fs.beforeValue + (Spell(fs.value) + (fs.behind + BehindField(fs, tail))))));
  }

  /** Every JSON text between blanks parses to the tree it denotes, so it denotes only one. */
  lemma DenotedIsParsed(b: string, t: string, b': string, v: Json)
    requires Blank(b) && Spaces(b') && Denotes(t, v)
    ensures ParseValue(Skip(b + (t + b'))) == Done(v, b')
  {
    var s :| Valid(s) && Spell(s) == t && Meaning(s) == v;
    SpelledIsVisible(s, b');
    SkipBlank(b, t + b');
    ParseSpelled(s, b');
  }

  lemma DenotesOneTree(t: string, v: Json, v': Json)
    requires Denotes(t, v) && Denotes(t, v')
    ensures v == v'
  {
    DenotedIsParsed([], t, [], v);
    DenotedIsParsed([], t, [], v');
  }
}
