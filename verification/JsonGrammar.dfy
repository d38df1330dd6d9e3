/**
 The grammar of RFC 8259 as trees of concrete syntax: how a tree is spelled and what it means; and
 the wider grammar of what cJSON reads.
 */
module JsonGrammar {
  import opened Common
  import opened Utf8
  import opened Ascii
  import opened JsonString
  import opened JsonStringCode
  import opened JsonText
  import opened JsonRoundTrip

  /** One character of a string literal (section 7 of RFC 8259), or a high surrogate that no low one
      follows: because no escape of four digits follows it, or because another one does. */
  datatype Unit =
    | Plain(c: char)
    | Short(letter: char)
    | Basic(hex: string)
    | Pair(high: string, low: string)
    | Lone(high: string)
    | Unpaired(high: string, other: string)

  datatype Exponent = NoExponent | Exponent(mark: char, sign: string, digits: string)

  datatype Syntax =
    | NullWord
    | FalseWord
    | TrueWord
    | Numeral(minus: bool, whole: string, fraction: string, exponent: Exponent)
    | Literal(units: seq<Unit>)
    | Unclosed(units: seq<Unit>)
    | Brackets(blank: string, elements: Elements)
    | Braces(blank: string, fields: Fields)

  datatype Elements = NoElement | Element(before: string, value: Syntax, behind: string, next: Elements)

  datatype Fields =
    | NoField
    | Field(before: string, name: seq<Unit>, behindName: string,
            beforeValue: string, value: Syntax, behind: string, next: Fields)

  // ---- What the parser reads ----

  predicate Digits(s: string) { forall k | 0 <= k < |s| :: IsDigit(s[k]) }

  predicate FourCharacters(h: string) { |h| == 4 && HasRoom(h) }

  predicate ReadableUnit(u: Unit) {
    match u
    case Plain(c) => c != '\"' && c != '\\'
    case Short(letter) => letter != 'u'
    case Basic(h) => FourCharacters(h) && !IsHighSurrogate(Hex4(h))
    case Pair(high, low) =>
      FourCharacters(high) && FourCharacters(low) && IsHighSurrogate(Hex4(high)) && IsLowSurrogate(Hex4(low))
    case Lone(high) => FourCharacters(high) && IsHighSurrogate(Hex4(high))
    case Unpaired(high, other) =>
      FourCharacters(high) && FourCharacters(other) && IsHighSurrogate(Hex4(high)) && !IsLowSurrogate(Hex4(other))
  }

  /** Behind a lone high surrogate no further `\\u` stands. */
  predicate LoneIsLone(us: seq<Unit>) {
    forall k | 0 <= k < |us| - 1 && us[k].Lone? :: us[k + 1].Plain? || us[k + 1].Short?
  }

  predicate ReadableUnits(us: seq<Unit>) {
    (forall k | 0 <= k < |us| :: ReadableUnit(us[k])) && LoneIsLone(us)
  }

  predicate ReadableExponent(e: Exponent) {
    e.Exponent? ==> (e.mark == 'e' || e.mark == 'E') && e.sign in ["", "+", "-"] && Digits(e.digits)
  }

  /** What is read beyond the grammar: control characters as blanks and in strings, backslashes before
      any letter and any four characters behind `\\u`, numerals with a zero in front or without digits, and
      at the end of the text a string without its closing quote. */
  predicate Readable(s: Syntax)
    decreases s
  {
    match s
    case Numeral(minus, whole, fraction, exponent) =>
      && Digits(whole) && (minus || whole != []) && (|whole| >= 2 && whole[0] == '0' ==> whole[1] != '0')
      && Digits(fraction) && ReadableExponent(exponent)
    case Literal(units) => ReadableUnits(units)
    case Unclosed(units) => ReadableUnits(units)
    case Brackets(blank, elements) => Blank(blank) && ReadableElements(elements) && (elements.Element? ==> blank == [])
    case Braces(blank, fields) => Blank(blank) && ReadableFields(fields) && (fields.Field? ==> blank == [])
    case _ => true
  }

  predicate ReadableElements(es: Elements)
    decreases es
  {
    es.Element? ==>
      && Blank(es.before) && Readable(es.value) && !es.value.Unclosed? && Blank(es.behind) && ReadableElements(es.next)
  }

  predicate ReadableFields(fs: Fields)
    decreases fs
  {
    fs.Field? ==>
      && Blank(fs.before) && ReadableUnits(fs.name) && Blank(fs.behindName) && Blank(fs.beforeValue)
      && Readable(fs.value) && !fs.value.Unclosed? && Blank(fs.behind) && ReadableFields(fs.next)
  }

  // ---- What is well-formed ----

  predicate IsHex(h: string) { |h| == 4 && forall k | 0 <= k < 4 :: HexValue(h[k]) < 16 }

  predicate ValidUnit(u: Unit): (r: bool)
    ensures r ==> ReadableUnit(u)
  {
    match u
    case Plain(c) => c as int >= 0x20 && c != '\"' && c != '\\'
    case Short(letter) => letter in "\"\\/bfnrt"
    case Basic(h) => IsHex(h) && !IsHighSurrogate(Hex4(h))
    case Pair(high, low) => IsHex(high) && IsHex(low) && IsHighSurrogate(Hex4(high)) && IsLowSurrogate(Hex4(low))
    case Lone(high) => IsHex(high) && IsHighSurrogate(Hex4(high))
    case Unpaired(high, other) =>
      IsHex(high) && IsHex(other) && IsHighSurrogate(Hex4(high)) && !IsLowSurrogate(Hex4(other))
  }

  predicate ValidUnits(us: seq<Unit>): (r: bool)
    ensures r ==> ReadableUnits(us)
  {
    (forall k | 0 <= k < |us| :: ValidUnit(us[k])) && LoneIsLone(us)
  }

  predicate ValidExponent(e: Exponent): (r: bool)
    ensures r ==> ReadableExponent(e)
  {
    e.Exponent? ==> (e.mark == 'e' || e.mark == 'E') && e.sign in ["", "+", "-"] && e.digits != [] && Digits(e.digits)
  }

  /** RFC 8259 */
  predicate Valid(s: Syntax): (r: bool)
    ensures r ==> Readable(s) && !s.Unclosed?
    decreases s
  {
    match s
    case Numeral(_, whole, fraction, exponent) =>
      && Digits(whole) && whole != [] && (whole[0] == '0' ==> whole == "0")
      && Digits(fraction) && ValidExponent(exponent)
    case Literal(units) => ValidUnits(units)
    case Unclosed(_) => false
    case Brackets(blank, elements) => Spaces(blank) && ValidElements(elements) && (elements.Element? ==> blank == [])
    case Braces(blank, fields) => Spaces(blank) && ValidFields(fields) && (fields.Field? ==> blank == [])
    case _ => true
  }

  predicate ValidElements(es: Elements): (r: bool)
    ensures r ==> ReadableElements(es)
    decreases es
  {
    es.Element? ==> Spaces(es.before) && Valid(es.value) && Spaces(es.behind) && ValidElements(es.next)
  }

  predicate ValidFields(fs: Fields): (r: bool)
    ensures r ==> ReadableFields(fs)
    decreases fs
  {
    fs.Field? ==>
      && Spaces(fs.before) && ValidUnits(fs.name) && Spaces(fs.behindName)
      && Spaces(fs.beforeValue) && Valid(fs.value) && Spaces(fs.behind) && ValidFields(fs.next)
  }

  // ---- How it is spelled ----

  function SpellUnit(u: Unit): string {
    match u
    case Plain(c) => [c]
    case Short(letter) => ['\\', letter]
    case Basic(h) => "\\u" + h
    case Pair(high, low) => "\\u" + high + "\\u" + low
    case Lone(high) => "\\u" + high
    case Unpaired(high, other) => "\\u" + high + "\\u" + other
  }

  function SpellUnits(us: seq<Unit>): string {
    if us == [] then [] else SpellUnit(us[0]) + SpellUnits(us[1..])
  }

  function SpellLiteral(us: seq<Unit>): string { "\"" + SpellUnits(us) + "\"" }

  function SpellExponent(e: Exponent): string {
    if e.NoExponent? then [] else [e.mark] + e.sign + e.digits
  }

  function SpellFraction(fraction: string): string { if fraction == [] then [] else "." + fraction }

  function Spell(s: Syntax): string
    decreases s
  {
    match s
    case NullWord => "null"
    case FalseWord => "false"
    case TrueWord => "true"
    case Numeral(minus, whole, fraction, exponent) =>
      (if minus then "-" else []) + (whole + (SpellFraction(fraction) + SpellExponent(exponent)))
    case Literal(units) => SpellLiteral(units)
    case Unclosed(units) => "\"" + SpellUnits(units)
    case Brackets(blank, elements) => "[" + (blank + (SpellElements(elements) + "]"))
    case Braces(blank, fields) => "{" + (blank + (SpellFields(fields) + "}"))
  }

  function SpellElements(es: Elements): string
    decreases es
  {
    if es.NoElement? then []
    else es.before + (Spell(es.value) + (es.behind + (if es.next.NoElement? then [] else "," + SpellElements(es.next))))
  }

  function SpellFields(fs: Fields): string
    decreases fs
  {
    if fs.NoField? then []
    else
      fs.before + (SpellLiteral(fs.name) + (fs.behindName + (":" + (fs.beforeValue + (Spell(fs.value) +
      (fs.behind + (if fs.next.NoField? then [] else "," + SpellFields(fs.next))))))))
  }

  // ---- What it means ----

  /** The code drops U+0000, digits that are none, and surrogates that are not paired, with a high one
      the escape behind it.  Section 8.2 of RFC 8259 leaves open what such surrogates mean. */
  function UnitMeans(u: Unit): string
    requires ReadableUnit(u)
  {
    match u
    case Plain(c) => [c]
    case Short(letter) => [Unescape(letter)]
    case Basic(h) => if Hex4(h) == 0 || IsLowSurrogate(Hex4(h)) then [] else Encode(Hex4(h))
    case Pair(high, low) => Encode(0x10000 + (Hex4(high) - 0xD800) * 0x400 + (Hex4(low) - 0xDC00))
    case _ => []
  }

  function UnitsMean(us: seq<Unit>): string
    requires ReadableUnits(us)
  {
    if us == [] then [] else UnitMeans(us[0]) + UnitsMean(us[1..])
  }

  /** The number that digits spell, the most significant first. */
  function DigitsMean(s: string): nat
    requires Digits(s)
  {
    if s == [] then 0 else 10 * DigitsMean(s[..|s| - 1]) + (s[|s| - 1] as int - '0' as int)
  }

  function ExponentMeans(e: Exponent): int
    requires ReadableExponent(e)
  {
    if e.NoExponent? then 0 else if e.sign == "-" then 0 - DigitsMean(e.digits) else DigitsMean(e.digits)
  }

  function Meaning(s: Syntax): Json
    requires Readable(s)
    decreases s
  {
    match s
    case NullWord => Null
    case FalseWord => False
    case TrueWord => True
    case Numeral(minus, whole, fraction, exponent) =>
      var n := DigitsMean(whole + fraction);
      Number(if minus then 0 - n else n, ExponentMeans(exponent) - |fraction|)
    case Literal(units) => Text(UnitsMean(units))
    case Unclosed(units) => Text(UnitsMean(units))
    case Brackets(_, elements) => Array(ElementsMean(elements))
    case Braces(_, fields) => Object(FieldsMean(fields))
  }

  function ElementsMean(es: Elements): Items
    requires ReadableElements(es)
    decreases es
  {
    if es.NoElement? then NoItem else Item(Meaning(es.value), ElementsMean(es.next))
  }

  function FieldsMean(fs: Fields): Members
    requires ReadableFields(fs)
    decreases fs
  {
    if fs.NoField? then NoMember else Member(UnitsMean(fs.name), Meaning(fs.value), FieldsMean(fs.next))
  }

  /** The text is JSON and denotes the tree. */
  ghost predicate Denotes(t: string, v: Json) {
    exists s :: Valid(s) && Spell(s) == t && Meaning(s) == v
  }

  // ---- JSON texts are C strings ----

  lemma UnitIsNulFree(u: Unit)
    requires ValidUnit(u)
    ensures NulFree(SpellUnit(u))
  {
  }

  lemma {:induction false} UnitsAreNulFree(us: seq<Unit>)
    requires ValidUnits(us)
    ensures NulFree(SpellUnits(us))
  {
    hide SpellUnit, ValidUnit;
    if us != [] {
      UnitIsNulFree(us[0]);
      UnitsAreNulFree(us[1..]);
    }
  }

  lemma SimpleAreNulFree(b: string)
    requires Spaces(b) || Digits(b)
    ensures NulFree(b)
  {
  }

  lemma JoinNulFree(a: string, b: string)
    requires NulFree(a) && NulFree(b)
    ensures NulFree(a + b)
  {
  }

  lemma ExponentIsNulFree(e: Exponent)
    requires ValidExponent(e)
    ensures NulFree(SpellExponent(e))
  {
    if e.Exponent? {
      SimpleAreNulFree(e.digits);
      hide Digits;
      JoinNulFree([e.mark] + e.sign, e.digits);
    }
  }

  lemma NumeralIsNulFree(s: Syntax)
    requires s.Numeral? && Valid(s)
    ensures NulFree(Spell(s))
  {
    hide Digits, SpellExponent, ValidExponent;
    SimpleAreNulFree(s.whole);
    SimpleAreNulFree(s.fraction);
    ExponentIsNulFree(s.exponent);
    var f := SpellFraction(s.fraction);
    JoinNulFree(f, SpellExponent(s.exponent));
    JoinNulFree(s.whole, f + SpellExponent(s.exponent));
  }

  lemma {:induction false} SpelledIsNulFree(s: Syntax)
    requires Valid(s)
    ensures NulFree(Spell(s))
    decreases s
  {
    hide SpellUnits, Spaces, ValidUnits, Digits;
    match s
    case Numeral(_, _, _, _) => NumeralIsNulFree(s);
    case Literal(units) => UnitsAreNulFree(units);
    case Brackets(blank, elements) =>
      SimpleAreNulFree(blank);
      ElementsAreNulFree(elements);
    case Braces(blank, fields) =>
      SimpleAreNulFree(blank);
      FieldsAreNulFree(fields);
    case _ =>
  }

  lemma {:induction false} ElementsAreNulFree(es: Elements)
    requires ValidElements(es)
    ensures NulFree(SpellElements(es))
    decreases es
  {
    hide Spell, Valid, Spaces;
    if es.Element? {
      SimpleAreNulFree(es.before);
      SimpleAreNulFree(es.behind);
      SpelledIsNulFree(es.value);
      ElementsAreNulFree(es.next);
    }
  }

  lemma {:induction false} FieldsAreNulFree(fs: Fields)
    requires ValidFields(fs)
    ensures NulFree(SpellFields(fs))
    decreases fs
  {
    hide Spell, Valid, Spaces, SpellUnits, ValidUnits;
    if fs.Field? {
      SimpleAreNulFree(fs.before);
      SimpleAreNulFree(fs.behindName);
      SimpleAreNulFree(fs.beforeValue);
      SimpleAreNulFree(fs.behind);
      UnitsAreNulFree(fs.name);
      SpelledIsNulFree(fs.value);
      FieldsAreNulFree(fs.next);
    }
  }
}
