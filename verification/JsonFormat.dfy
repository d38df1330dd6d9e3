/**
 The second JSON writer: jsonEscape (rct/Rct.h) and JSONFormatter (rct/Value.cpp), beside cJSON's.
 Bytes are characters below 256; `char` is signed, as on the platforms the library is built for.
 */
module JsonFormat {
  import opened Common
  import opened Utf8
  import opened JsonString
  import opened JsonStringCode
  import opened JsonText
  import opened JsonRoundTrip
  import opened ValueJson
  import opened G = JsonGrammar
  import opened JsonReading
  import W = Wire

  predicate IsBytes(s: string) { forall i | 0 <= i < |s| :: s[i] as int < 256 }

  function Signed(c: char): int { if c as int < 128 then c as int else c as int - 256 }

  /** `snprintf(buffer, 7, "\\u%04x", ch)`: a negative `ch` has eight digits, of which four fit. */
  function HexOf(ch: int): string
    requires -128 <= ch < 128
  {
    HexDigits(if ch >= 0 then ch else (0x1_0000_0000 + ch) / 0x1_0000)
  }

  /** What jsonEscape makes of a byte. */
  function UnitOf(c: char): G.Unit
    requires c as int < 256
  {
    if EscapeLetter(c) != '\0' then G.Short(EscapeLetter(c))
    else if Signed(c) < 0x20 || Signed(c) == 127 then G.Basic(HexOf(Signed(c)))
    else G.Plain(c)
  }

  function UnitsOf(s: string): seq<G.Unit>
    requires IsBytes(s)
  {
    if s == [] then [] else UnitsOf(s[..|s| - 1]) + [UnitOf(s[|s| - 1])]
  }

  lemma {:induction false} SpellSnoc(us: seq<G.Unit>, u: G.Unit)
    ensures SpellUnits(us + [u]) == SpellUnits(us) + SpellUnit(u)
  {
    hide SpellUnit;
    if us == [] {
      assert [u][1..] == [] && SpellUnit(u) + [] == [] + SpellUnit(u);
    } else {
      SpellSnoc(us[1..], u);
      assert (us + [u])[1..] == us[1..] + [u];
      Assoc(SpellUnit(us[0]), SpellUnits(us[1..]), SpellUnit(u));
    }
  }

  lemma UnitsSnoc(s: string, i: nat)
    requires IsBytes(s) && i < |s|
    ensures SpellUnits(UnitsOf(s[..i + 1])) == SpellUnits(UnitsOf(s[..i])) + SpellUnit(UnitOf(s[i]))
  {
    assert s[..i + 1][..i] == s[..i];
    SpellSnoc(UnitsOf(s[..i]), UnitOf(s[i]));
  }

  lemma PlainUnit(c: char)
    requires c as int < 256
    ensures UnitOf(c).Plain? <==> !(EscapeLetter(c) != '\0' || Signed(c) < 0x20 || Signed(c) == 127)
    ensures UnitOf(c).Plain? ==> SpellUnit(UnitOf(c)) == [c]
  {
  }

  /** What has been put out when the first `i` bytes are done. */
  ghost predicate Escaped(out: string, hasEscaped: bool, str: string, i: nat)
    requires IsBytes(str) && i <= |str|
  {
    if hasEscaped then out == "\"" + SpellUnits(UnitsOf(str[..i]))
    else out == "\"" && SpellUnits(UnitsOf(str[..i])) == str[..i]
  }

  lemma EscapeTurn(out: string, hasEscaped: bool, str: string, i: nat)
    requires IsBytes(str) && i < |str| && Escaped(out, hasEscaped, str, i)
    ensures Escaped((if hasEscaped then out else out + str[..i]) + SpellUnit(UnitOf(str[i])), true, str, i + 1)
    ensures UnitOf(str[i]).Plain? ==> Escaped(if hasEscaped then out + [str[i]] else out, hasEscaped, str, i + 1)
  {
    hide UnitsOf, UnitOf, SpellUnits, SpellUnit;
    UnitsSnoc(str, i);
    PlainUnit(str[i]);
    Assoc("\"", SpellUnits(UnitsOf(str[..i])), SpellUnit(UnitOf(str[i])));
    assert str[..i] + [str[i]] == str[..i + 1];
  }

  lemma EscapeEnds(out: string, hasEscaped: bool, str: string)
    requires IsBytes(str) && Escaped(out, hasEscaped, str, |str|)
    ensures (if hasEscaped then out else out + str) + "\"" == SpellLiteral(UnitsOf(str))
  {
    assert str[..|str|] == str;
  }

  /** `jsonEscape`: nothing is copied until the first escape, and then everything before it at once. */
  method JsonEscape(str: string) returns (out: string)
    requires IsBytes(str)
    ensures out == SpellLiteral(UnitsOf(str))
  {
    out := "\"";
    var hasEscaped := false;
    assert Escaped(out, hasEscaped, str, 0);
    hide Escaped, UnitOf, SpellUnit, SpellLiteral;
    for i := 0 to |str|
      invariant Escaped(out, hasEscaped, str, i)
    {
      var c := str[i];
      EscapeTurn(out, hasEscaped, str, i);
      PlainUnit(c);
      if EscapeLetter(c) != '\0' || Signed(c) < 0x20 || Signed(c) == 127 {
        if !hasEscaped {
          hasEscaped := true;
          out := out + str[..i];
        }
        out := out + SpellUnit(UnitOf(c));
      } else if hasEscaped {
        out := out + [c];
      }
    }
    EscapeEnds(out, hasEscaped, str);
    if !hasEscaped {
      out := out + str;
    }
    out := out + "\"";
  }

  // ---- What parse_string reads back ----

  function ReadBackByte(c: char): string {
    if c == '\0' then [] else if c as int < 128 then [c] else Encode(0xFFFF)
  }

  function ReadBackBytes(s: string): string {
    if s == [] then [] else ReadBackBytes(s[..|s| - 1]) + ReadBackByte(s[|s| - 1])
  }

  lemma UnitReadsBack(c: char)
    requires c as int < 256
    ensures ValidUnit(UnitOf(c)) && !UnitOf(c).Lone? && UnitMeans(UnitOf(c)) == ReadBackByte(c)
  {
    hide HexDigits, Hex4, HexValue;
    if EscapeLetter(c) == '\0' && (Signed(c) < 0x20 || Signed(c) == 127) {
      var n := if Signed(c) < 0 then 0xFFFF else c as int;
      assert UnitOf(c) == G.Basic(HexDigits(n));
      HexRoundTrip(n);
    }
  }

  ghost predicate NoLone(us: seq<G.Unit>) { forall k | 0 <= k < |us| :: !us[k].Lone? }

  lemma {:induction false} MeanSnoc(us: seq<G.Unit>, u: G.Unit)
    requires ValidUnits(us) && ValidUnit(u) && NoLone(us)
    ensures ValidUnits(us + [u]) && UnitsMean(us + [u]) == UnitsMean(us) + UnitMeans(u)
  {
    hide UnitMeans, ValidUnit, ReadableUnit;
    if us == [] {
      assert [u][1..] == [] && UnitMeans(u) + [] == [] + UnitMeans(u);
    } else {
      MeanSnoc(us[1..], u);
      assert (us + [u])[1..] == us[1..] + [u];
      Assoc(UnitMeans(us[0]), UnitsMean(us[1..]), UnitMeans(u));
    }
  }

  lemma {:induction false} UnitsReadBack(s: string)
    requires IsBytes(s)
    ensures ValidUnits(UnitsOf(s)) && NoLone(UnitsOf(s)) && UnitsMean(UnitsOf(s)) == ReadBackBytes(s)
  {
    hide UnitOf, ValidUnit, UnitMeans, ReadBackByte;
    if s != [] {
      UnitsReadBack(s[..|s| - 1]);
      UnitReadsBack(s[|s| - 1]);
      MeanSnoc(UnitsOf(s[..|s| - 1]), UnitOf(s[|s| - 1]));
    }
  }

  /** Text that jsonEscape carries through a parser: 7-bit and free of NUL. */
  predicate IsPlain(s: string) { forall i | 0 <= i < |s| :: 0 < s[i] as int < 128 }

  lemma {:induction false} ReadBackLength(s: string)
    ensures NulFree(ReadBackBytes(s))
    ensures NulFree(s) ==> |ReadBackBytes(s)| >= |s|
    ensures NulFree(s) && !IsPlain(s) ==> |ReadBackBytes(s)| > |s| && !IsPlain(ReadBackBytes(s))
  {
    if s != [] {
      var before, c := s[..|s| - 1], s[|s| - 1];
      ReadBackLength(before);
      assert s == before + [c];
      ByteReadsBack(c);
      hide ReadBackByte;
      JoinPlain(ReadBackBytes(before), ReadBackByte(c));
      JoinPlain(before, [c]);
    }
  }

  lemma ByteReadsBack(c: char)
    ensures NulFree(ReadBackByte(c)) && (c != '\0' ==> |ReadBackByte(c)| >= 1)
    ensures c as int >= 128 ==> |ReadBackByte(c)| == 3 && !IsPlain(ReadBackByte(c))
  {
    assert c as int >= 128 ==> ReadBackByte(c)[0] as int == 0xEF;
  }

  lemma JoinPlain(a: string, b: string)
    ensures IsPlain(a + b) <==> IsPlain(a) && IsPlain(b)
  {
    if IsPlain(a + b) {
      assert forall i | 0 <= i < |a| :: a[i] == (a + b)[i];
      assert forall i | 0 <= i < |b| :: b[i] == (a + b)[|a| + i];
    }
  }

  lemma {:induction false} PlainReadsBack(s: string)
    requires IsPlain(s)
    ensures ReadBackBytes(s) == s
  {
    if s != [] {
      var before, c := s[..|s| - 1], s[|s| - 1];
      assert s == before + [c] && ReadBackByte(c) == [c];
      hide ReadBackByte;
      PlainReadsBack(before);
    }
  }

  /** parse_string recovers what jsonEscape wrote exactly when it was 7-bit text without NUL. */
  lemma EscapeRoundTripExactlyWhen(s: string, rest: string)
    requires IsBytes(s)
    ensures ValidUnits(UnitsOf(s))
    ensures ParseText(SpellLiteral(UnitsOf(s)) + rest) == Done(ReadBackBytes(s), rest)
    ensures ParseText(SpellLiteral(UnitsOf(s)) + rest) == Done(s, rest) <==> IsPlain(s)
  {
    UnitsReadBack(s);
    LiteralMeans(UnitsOf(s), rest);
    hide ReadBackBytes, ParseText, SpellLiteral, UnitsMean, UnitsOf;
    ReadBackLength(s);
    if IsPlain(s) {
      PlainReadsBack(s);
    }
  }

  /** A byte above 127 comes back as the three bytes of U+FFFF, a NUL not at all. */
  lemma NotAllComeBack(rest: string)
    ensures IsBytes([200 as char, '\0'])
    ensures ParseText(SpellLiteral(UnitsOf([200 as char, '\0'])) + rest) == Done(Encode(0xFFFF), rest)
  {
    var s := [200 as char, '\0'];
    EscapeRoundTripExactlyWhen(s, rest);
    hide ParseText, SpellLiteral, UnitsOf;
    ReadBackSnoc([], 200 as char);
    ReadBackSnoc([200 as char], '\0');
    assert [] + [200 as char] == [200 as char] && [200 as char] + ['\0'] == s;
    hide ReadBackBytes, Encode;
    assert [] + Encode(0xFFFF) == Encode(0xFFFF) && Encode(0xFFFF) + [] == Encode(0xFFFF);
    assert ReadBackBytes([]) == [] by { ReadBackNothing(); }
  }

  lemma ReadBackNothing()
    ensures ReadBackBytes([]) == []
  {
  }

  lemma ReadBackSnoc(s: string, c: char)
    ensures ReadBackBytes(s + [c]) == ReadBackBytes(s) + ReadBackByte(c)
  {
    assert (s + [c])[..|s|] == s;
  }

  /** Whatever the string, jsonEscape writes printable 7-bit characters only. */
  lemma {:induction false} EscapedIsPrintable(s: string)
    requires IsBytes(s)
    ensures forall c | c in SpellLiteral(UnitsOf(s)) :: 0x20 <= c as int < 0x7F
  {
    UnitsArePrintable(s);
    hide SpellUnits, UnitsOf;
  }

  lemma {:induction false} UnitsArePrintable(s: string)
    requires IsBytes(s)
    ensures forall c | c in SpellUnits(UnitsOf(s)) :: 0x20 <= c as int < 0x7F
  {
    if s != [] {
      var before, c := s[..|s| - 1], s[|s| - 1];
      UnitsArePrintable(before);
      UnitIsPrintable(c);
      hide SpellUnits, SpellUnit, UnitOf;
      SpellSnoc(UnitsOf(before), UnitOf(c));
    }
  }

  lemma UnitIsPrintable(c: char)
    requires c as int < 256
    ensures forall x | x in SpellUnit(UnitOf(c)) :: 0x20 <= x as int < 0x7F
  {
    if UnitOf(c).Basic? {
      var h := UnitOf(c).hex;
      HexIsPrintable(h, if Signed(c) >= 0 then Signed(c) else (0x1_0000_0000 + Signed(c)) / 0x1_0000);
    }
    hide HexDigits;
  }

  lemma HexIsPrintable(h: string, n: nat)
    requires n < 0x10000 && h == HexDigits(n)
    ensures forall x | x in h :: 0x20 <= x as int < 0x7F
  {
  }

  // ---- JSONFormatter ----

  /** Values without doubles, dates and customs. */
  predicate Formattable(v: W.Value)
    decreases v
  {
    match v
    case Double(_) => false
    case Date(_) => false
    case Custom => false
    case String(s) => IsBytes(s)
    case List(items) => FormattableItems(items)
    case Map(entries) => FormattableEntries(entries)
    case _ => true
  }

  predicate FormattableItems(items: W.Values)
    decreases items
  {
    items.More? ==> Formattable(items.value) && FormattableItems(items.next)
  }

  predicate FormattableEntries(entries: W.Entries)
    decreases entries
  {
    entries.Entry? ==> IsBytes(entries.key) && Formattable(entries.value) && FormattableEntries(entries.next)
  }

  /** The value as a tree of JSON syntax without blanks. */
  function SyntaxOf(v: W.Value): G.Syntax
    requires Formattable(v)
    decreases v
  {
    match v
    case Boolean(b) => if b then G.TrueWord else G.FalseWord
    case Integer(n) => NumeralOf(W.Wrap32(n))
    case String(s) => G.Literal(UnitsOf(s))
    case List(items) => G.Brackets([], ElementsOf(items))
    case Map(entries) => G.Braces([], FieldsOf(entries))
    case _ => G.NullWord
  }

  function NumeralOf(n: int): G.Syntax {
    G.Numeral(n < 0, Decimal(if n < 0 then -n else n), [], G.NoExponent)
  }

  function ElementsOf(items: W.Values): G.Elements
    requires FormattableItems(items)
    decreases items
  {
    if items.NoValue? then G.NoElement else G.Element([], SyntaxOf(items.value), [], ElementsOf(items.next))
  }

  function FieldsOf(entries: W.Entries): G.Fields
    requires FormattableEntries(entries)
    decreases entries
  {
    if entries.NoEntry? then G.NoField
    else G.Field([], UnitsOf(entries.key), [], [], SyntaxOf(entries.value), [], FieldsOf(entries.next))
  }

  /** What is still to come of a list or map, with a comma in front unless it is the first. */
  ghost function ItemsToCome(first: bool, items: W.Values): string
    requires FormattableItems(items)
  {
    if items.NoValue? then [] else (if first then [] else ",") + SpellElements(ElementsOf(items))
  }

  ghost function EntriesToCome(first: bool, entries: W.Entries): string
    requires FormattableEntries(entries)
  {
    if entries.NoEntry? then [] else (if first then [] else ",") + SpellFields(FieldsOf(entries))
  }

  lemma NextItem(out: string, first: bool, items: W.Values)
    requires FormattableItems(items) && items.More?
    ensures out + ItemsToCome(first, items)
         == (if first then out else out + ",") + Spell(SyntaxOf(items.value)) + ItemsToCome(false, items.next)
  {
    hide Spell, SyntaxOf;
    var v, more := Spell(SyntaxOf(items.value)), ItemsToCome(false, items.next);
    assert SpellElements(ElementsOf(items)) == [] + (v + ([] + more));
  }

  lemma NextEntry(out: string, first: bool, entries: W.Entries)
    requires FormattableEntries(entries) && entries.Entry?
    ensures out + EntriesToCome(first, entries)
         == (if first then out else out + ",") + SpellLiteral(UnitsOf(entries.key)) + ":" + Spell(SyntaxOf(entries.value))
            + EntriesToCome(false, entries.next)
  {
    hide Spell, SyntaxOf, SpellLiteral, UnitsOf;
    var key, v, more := SpellLiteral(UnitsOf(entries.key)), Spell(SyntaxOf(entries.value)), EntriesToCome(false, entries.next);
    assert SpellFields(FieldsOf(entries)) == [] + (key + ([] + (":" + ([] + (v + ([] + more))))));
    hide *;
    FieldText(if first then out else out + ",", key, v, more);
    Assoc(out, ",", [] + (key + ([] + (":" + ([] + (v + ([] + more)))))));
  }

  lemma FieldText(out: string, key: string, v: string, more: string)
    ensures out + ([] + (key + ([] + (":" + ([] + (v + ([] + more))))))) == out + key + ":" + v + more
  {
  }

  /** JSONFormatter writes JSON: the spelling of the value's syntax. */
  method Format(value: W.Value) returns (out: string)
    requires Formattable(value)
    ensures out == Spell(SyntaxOf(value))
    decreases value, 1
  {
    match value
    case Boolean(b) => out := if b then "true" else "false";
    case Integer(n) =>
      NumeralIsPrinted(W.Wrap32(n));
      out := PrintInt(W.Wrap32(n));
    case String(s) => out := JsonEscape(s);
    case List(items) => out := FormatList(items);
    case Map(entries) => out := FormatMap(entries);
    case _ => out := "null";
  }

  lemma NumeralIsPrinted(n: int)
    ensures Spell(NumeralOf(n)) == PrintInt(n)
  {
    var d := Decimal(if n < 0 then -n else n);
    assert d + ([] + []) == d && [] + d == d;
  }

  method FormatList(items: W.Values) returns (out: string)
    requires FormattableItems(items)
    ensures out == Spell(G.Brackets([], ElementsOf(items)))
    decreases items, 0
  {
    hide SyntaxOf, ItemsToCome;
    out := "[";
    var first, rest := true, items;
    ListText(items);
    while rest.More?
      invariant FormattableItems(rest) && (rest == items || rest < items)
      invariant out + ItemsToCome(first, rest) + "]" == Spell(G.Brackets([], ElementsOf(items)))
      decreases rest
    {
      NextItem(out, first, rest);
      if !first {
        out := out + ",";
      } else {
        first := false;
      }
      var text := Format(rest.value);
      out := out + text;
      rest := rest.next;
    }
    assert ItemsToCome(first, W.NoValue) == [] by { NothingToCome(first); }
    assert out + [] == out;
    out := out + "]";
  }

  lemma ListText(items: W.Values)
    requires FormattableItems(items)
    ensures "[" + ItemsToCome(true, items) + "]" == Spell(G.Brackets([], ElementsOf(items)))
  {
    hide SyntaxOf;
    CompactBrackets(NoItem, ElementsOf(items), 0);
  }

  lemma MapText(entries: W.Entries)
    requires FormattableEntries(entries)
    ensures "{" + EntriesToCome(true, entries) + "}" == Spell(G.Braces([], FieldsOf(entries)))
  {
    hide *;
    WholeMapToCome(entries);
    CompactBraces(NoMember, FieldsOf(entries), 0);
  }

  lemma WholeMapToCome(entries: W.Entries)
    requires FormattableEntries(entries)
    ensures EntriesToCome(true, entries) == SpellFields(FieldsOf(entries))
  {
    hide SyntaxOf, UnitsOf, SpellLiteral, Spell;
  }

  lemma NothingToCome(first: bool)
    ensures ItemsToCome(first, W.NoValue) == [] && EntriesToCome(first, W.NoEntry) == []
  {
  }

  method FormatMap(entries: W.Entries) returns (out: string)
    requires FormattableEntries(entries)
    ensures out == Spell(G.Braces([], FieldsOf(entries)))
    decreases entries, 0
  {
    hide SyntaxOf, EntriesToCome, UnitsOf, SpellLiteral;
    out := "{";
    var first, rest := true, entries;
    MapText(entries);
    while rest.Entry?
      invariant FormattableEntries(rest) && (rest == entries || rest < entries)
      invariant out + EntriesToCome(first, rest) + "}" == Spell(G.Braces([], FieldsOf(entries)))
      decreases rest
    {
      NextEntry(out, first, rest);
      if !first {
        out := out + ",";
      } else {
        first := false;
      }
      var key := JsonEscape(rest.key);
      var text := Format(rest.value);
      out := out + key + ":" + text;
      rest := rest.next;
    }
    assert EntriesToCome(first, W.NoEntry) == [] by { NothingToCome(first); }
    assert out + [] == out;
    out := out + "}";
  }

  // ---- Where the two writers agree ----

  /** Formattable values whose strings are 7-bit, without NUL and DEL. */
  predicate Plain(v: W.Value)
    decreases v
  {
    match v
    case String(s) => PlainString(s)
    case List(items) => PlainItems(items)
    case Map(entries) => PlainEntries(entries)
    case _ => Formattable(v)
  }

  predicate PlainItems(items: W.Values)
    decreases items
  {
    items.More? ==> Plain(items.value) && PlainItems(items.next)
  }

  predicate PlainEntries(entries: W.Entries)
    decreases entries
  {
    entries.Entry? ==> PlainString(entries.key) && Plain(entries.value) && PlainEntries(entries.next)
  }

  predicate PlainString(s: string) { forall i | 0 <= i < |s| :: 0 < s[i] as int < 127 }

  lemma {:induction false} EscapeSnoc(s: string, c: char)
    ensures Escape(s + [c], true) == Escape(s, true) + EscapeChar(c, true)
  {
    hide EscapeChar;
    if s == [] {
      assert [c][1..] == [] && EscapeChar(c, true) + [] == [] + EscapeChar(c, true) && [] + [c] == [c];
    } else {
      EscapeSnoc(s[1..], c);
      assert (s + [c])[1..] == s[1..] + [c];
      Assoc(EscapeChar(s[0], true), Escape(s[1..], true), EscapeChar(c, true));
    }
  }

  lemma SameEscape(c: char)
    requires 0 < c as int < 127
    ensures SpellUnit(UnitOf(c)) == EscapeChar(c, true)
  {
    hide HexDigits;
  }

  /** Short of DEL the two escapers agree on 7-bit text. */
  lemma {:induction false} SameEscapes(s: string)
    requires PlainString(s)
    ensures IsBytes(s) && NulFree(s) && SpellUnits(UnitsOf(s)) == Escape(s, true)
  {
    if s != [] {
      var before, c := s[..|s| - 1], s[|s| - 1];
      assert s == before + [c];
      SameEscapes(before);
      SameEscape(c);
      hide SpellUnit, UnitOf, EscapeChar, Escape, SpellUnits;
      EscapeSnoc(before, c);
      SpellSnoc(UnitsOf(before), UnitOf(c));
    }
  }

  lemma CompactBrackets(items: Items, es: G.Elements, depth: nat)
    ensures PrintValue(Array(items), depth, false) == "[" + PrintItems(items, depth + 1, false) + "]"
    ensures Spell(G.Brackets([], es)) == "[" + SpellElements(es) + "]"
  {
    hide PrintMember;
    var t := SpellElements(es);
    assert "[" + ([] + (t + "]")) == "[" + t + "]";
    assert "[" + [] + "]" == "[]";
  }

  lemma CompactBraces(members: Members, fs: G.Fields, depth: nat)
    ensures PrintValue(Object(members), depth, false) == "{" + PrintMembers(members, depth + 1, false) + "}"
    ensures Spell(G.Braces([], fs)) == "{" + SpellFields(fs) + "}"
  {
    hide PrintMember, SpellLiteral;
    var t, p := SpellFields(fs), PrintMembers(members, depth + 1, false);
    BracesAround(t);
    BracesAround(p);
  }

  lemma BracesAround(t: string)
    ensures "{" + ([] + (t + "}")) == "{" + t + "}" && "{" + [] + t + [] + "}" == "{" + t + "}" && "{" + [] + "}" == "{}"
  {
  }

  lemma SameScalar(v: W.Value, depth: nat)
    requires Plain(v) && !v.List? && !v.Map?
    ensures Formattable(v) && NoDoubles(v) && Spell(SyntaxOf(v)) == PrintValue(ToTree(v), depth, false)
  {
    if v.Integer? {
      NumeralIsPrinted(W.Wrap32(v.n));
    } else if v.String? {
      SameEscapes(v.s);
      CStrIsNulFree(v.s);
    }
    hide UnitsOf, CStr, NumeralOf, Escape, SpellUnits, PrintInt;
  }

  /** On plain values JSONFormatter writes exactly what toJSON prints without layout. */
  lemma {:induction false} SamePrint(v: W.Value, depth: nat)
    requires Plain(v)
    ensures Formattable(v) && NoDoubles(v) && Spell(SyntaxOf(v)) == PrintValue(ToTree(v), depth, false)
    decreases v
  {
    hide Spell, PrintValue, PrintItems, PrintMembers, SpellElements, SpellFields, ElementsOf, FieldsOf, ToItems, ToMembers;
    match v
    case List(items) =>
      SameItems(items, depth + 1);
      CompactBrackets(ToItems(items), ElementsOf(items), depth);
    case Map(entries) =>
      SameEntries(entries, depth + 1);
      CompactBraces(ToMembers(entries), FieldsOf(entries), depth);
    case _ => SameScalar(v, depth);
  }

  lemma PrintedItem(value: Json, next: Items, depth: nat)
    ensures PrintItems(Item(value, next), depth, false)
         == PrintValue(value, depth, false) + (if next.NoItem? then [] else "," + PrintItems(next, depth, false))
  {
    hide PrintValue;
    assert "," + [] == ",";
  }

  lemma SpelledItem(items: W.Values)
    requires FormattableItems(items) && items.More?
    ensures SpellElements(ElementsOf(items))
         == Spell(SyntaxOf(items.value)) + (if items.next.NoValue? then [] else "," + SpellElements(ElementsOf(items.next)))
  {
    hide Spell, SyntaxOf;
    var v, more := Spell(SyntaxOf(items.value)), if items.next.NoValue? then [] else "," + SpellElements(ElementsOf(items.next));
    assert SpellElements(ElementsOf(items)) == [] + (v + ([] + more));
  }

  lemma {:induction false} SameItems(items: W.Values, depth: nat)
    requires PlainItems(items)
    ensures FormattableItems(items) && NoDoublesItems(items)
    ensures SpellElements(ElementsOf(items)) == PrintItems(ToItems(items), depth, false)
    decreases items
  {
    hide SyntaxOf, ToTree, PrintValue, PrintItems, Spell, Plain, Formattable;
    if items.More? {
      SamePrint(items.value, depth);
      SameItems(items.next, depth);
      SpelledItem(items);
      PrintedItem(ToTree(items.value), ToItems(items.next), depth);
      hide SpellElements, ElementsOf;
    } else {
      NoItems(depth);
    }
  }

  lemma PrintedMember(name: string, value: Json, next: Members, depth: nat)
    ensures PrintMembers(Member(name, value, next), depth, false)
         == Quoted(name) + ":" + PrintValue(value, depth, false)
            + (if next.NoMember? then [] else "," + PrintMembers(next, depth, false))
  {
    var m, core := Member(name, value, next), Quoted(name) + ":" + PrintValue(value, depth, false);
    assert PrintMember(m, depth, false) == core + (if next.NoMember? then [] else ",");
    assert PrintMembers(m, depth, false) == PrintMember(m, depth, false) + PrintMembers(next, depth, false);
    assert next.NoMember? ==> PrintMembers(next, depth, false) == [];
    hide PrintValue, Quoted, PrintMember, PrintMembers;
    Assoc(core, if next.NoMember? then [] else ",", PrintMembers(next, depth, false));
  }

  lemma {:induction false} SameEntries(entries: W.Entries, depth: nat)
    requires PlainEntries(entries)
    ensures FormattableEntries(entries) && NoDoublesEntries(entries)
    ensures SpellFields(FieldsOf(entries)) == PrintMembers(ToMembers(entries), depth, false)
    decreases entries
  {
    hide SyntaxOf, ToTree, UnitsOf, CStr, PrintMembers, PrintValue, SpellUnits;
    if entries.Entry? {
      SamePrint(entries.value, depth);
      SameEntries(entries.next, depth);
      SameEscapes(entries.key);
      CStrIsNulFree(entries.key);
      NextEntry([], true, entries);
      PrintedMember(CStr(entries.key), ToTree(entries.value), ToMembers(entries.next), depth);
      assert SpellLiteral(UnitsOf(entries.key)) == Quoted(CStr(entries.key));
    } else {
      NoMembers(depth);
    }
  }

  lemma NoItems(depth: nat)
    ensures PrintItems(NoItem, depth, false) == []
  {
  }

  lemma NoMembers(depth: nat)
    ensures PrintMembers(NoMember, depth, false) == []
  {
  }

  // ---- What fromJSON makes of it ----

  /** What survives: null, booleans, 32-bit integers, plain strings and keys, lists and maps of these. */
  ghost predicate Survives(v: W.Value)
    decreases v
  {
    match v
    case Invalid => true
    case Boolean(_) => true
    case Integer(n) => IsInt32(n)
    case String(s) => IsPlain(s)
    case List(items) => SurvivesItems(items)
    case Map(entries) => SurvivesEntries(entries)
    case _ => false
  }

  ghost predicate SurvivesItems(items: W.Values)
    decreases items
  {
    items.More? ==> Survives(items.value) && SurvivesItems(items.next)
  }

  ghost predicate SurvivesEntries(entries: W.Entries)
    decreases entries
  {
    entries.Entry? ==> IsPlain(entries.key) && Survives(entries.value) && SurvivesEntries(entries.next)
  }

  lemma {:induction false} DecimalMeans(n: nat)
    ensures Digits(Decimal(n)) && DigitsMean(Decimal(n)) == n
    ensures Decimal(n) != [] && (Decimal(n)[0] == '0' ==> Decimal(n) == "0")
  {
    DecimalDigits(n);
    if n >= 10 {
      DecimalMeans(n / 10);
      assert Decimal(n)[..|Decimal(n)| - 1] == Decimal(n / 10);
    } else {
      assert DigitsMean([]) == 0 && [Digit(n)][..0] == [];
    }
  }

  lemma NumeralMeansNumber(n: int)
    ensures Valid(NumeralOf(n)) && Meaning(NumeralOf(n)) == Number(n, 0)
  {
    var m := if n < 0 then -n else n;
    DecimalMeans(m);
    WholeNumber(n < 0, Decimal(m));
  }

  lemma WholeNumber(minus: bool, whole: string)
    requires Digits(whole) && whole != [] && (whole[0] == '0' ==> whole == "0")
    ensures var s := G.Numeral(minus, whole, [], G.NoExponent);
            Valid(s) && Meaning(s) == Number(if minus then 0 - DigitsMean(whole) else DigitsMean(whole), 0)
  {
    NoDigits();
    assert whole + [] == whole;
    hide Digits, DigitsMean, Readable, ReadableExponent;
    assert ValidExponent(G.NoExponent) && ExponentMeans(G.NoExponent) == 0;
    hide ValidExponent, ExponentMeans;
  }

  lemma NoDigits()
    ensures Digits([])
  {
  }

  lemma {:induction false} SyntaxIsValid(v: W.Value)
    requires Formattable(v)
    ensures Valid(SyntaxOf(v)) && Printable(Meaning(SyntaxOf(v)))
    decreases v
  {
    hide UnitsOf, UnitsMean, ValidUnits, NumeralOf;
    match v
    case Integer(n) => NumeralMeansNumber(W.Wrap32(n));
    case String(s) =>
      UnitsReadBack(s);
      ReadBackLength(s);
    case List(items) => ElementsAreValid(items);
    case Map(entries) => FieldsAreValid(entries);
    case _ =>
  }

  lemma {:induction false} ElementsAreValid(items: W.Values)
    requires FormattableItems(items)
    ensures ValidElements(ElementsOf(items)) && PrintableItems(ElementsMean(ElementsOf(items)))
    decreases items
  {
    hide SyntaxOf, Meaning, Valid;
    if items.More? {
      SyntaxIsValid(items.value);
      ElementsAreValid(items.next);
    }
  }

  lemma {:induction false} FieldsAreValid(entries: W.Entries)
    requires FormattableEntries(entries)
    ensures ValidFields(FieldsOf(entries)) && PrintableMembers(FieldsMean(FieldsOf(entries)))
    decreases entries
  {
    hide SyntaxOf, Meaning, Valid, UnitsOf, UnitsMean, ValidUnits;
    if entries.Entry? {
      UnitsReadBack(entries.key);
      ReadBackLength(entries.key);
      SyntaxIsValid(entries.value);
      FieldsAreValid(entries.next);
    }
  }

  /** The tree that fromJSON sees. */
  ghost function TreeRead(v: W.Value): Json
    requires Formattable(v)
  {
    SyntaxIsValid(v);
    Meaning(SyntaxOf(v))
  }

  ghost function ItemsRead(items: W.Values): Items
    requires FormattableItems(items)
  {
    ElementsAreValid(items);
    ElementsMean(ElementsOf(items))
  }

  ghost function MembersRead(entries: W.Entries): Members
    requires FormattableEntries(entries)
  {
    FieldsAreValid(entries);
    FieldsMean(FieldsOf(entries))
  }

  lemma ReadCases(v: W.Value)
    requires Formattable(v)
    ensures match v
            case Boolean(b) => TreeRead(v) == if b then True else False
            case Integer(n) => TreeRead(v) == Number(W.Wrap32(n), 0)
            case String(s) => TreeRead(v) == Text(ReadBackBytes(s))
            case List(items) => TreeRead(v) == Array(ItemsRead(items))
            case Map(entries) => TreeRead(v) == Object(MembersRead(entries))
            case _ => TreeRead(v) == Null
  {
    hide UnitsOf, UnitsMean, ValidUnits, NumeralOf, ElementsOf, FieldsOf, ElementsMean, FieldsMean;
    match v
    case Integer(n) => NumeralMeansNumber(W.Wrap32(n));
    case String(s) => UnitsReadBack(s);
    case _ =>
  }

  lemma ItemsReadStep(items: W.Values)
    requires FormattableItems(items)
    ensures ItemsRead(items) == if items.NoValue? then NoItem else Item(TreeRead(items.value), ItemsRead(items.next))
  {
    hide SyntaxOf, Meaning;
  }

  lemma MembersReadStep(entries: W.Entries)
    requires FormattableEntries(entries)
    ensures MembersRead(entries) ==
            if entries.NoEntry? then NoMember
            else Member(ReadBackBytes(entries.key), TreeRead(entries.value), MembersRead(entries.next))
  {
    hide SyntaxOf, Meaning, UnitsOf, UnitsMean, ValidUnits;
    if entries.Entry? {
      UnitsReadBack(entries.key);
    }
  }

  /** What survives is read as the tree toCJSON would have built. */
  lemma {:induction false} SurvivorsRead(v: W.Value)
    requires Formattable(v) && Survives(v)
    ensures NoDoubles(v) && Representable(v) && TreeRead(v) == ToTree(v)
    decreases v
  {
    hide TreeRead;
    ReadCases(v);
    match v
    case String(s) =>
      PlainReadsBack(s);
      CStrIsNulFree(s);
    case List(items) => SurvivingItemsRead(items);
    case Map(entries) => SurvivingEntriesRead(entries);
    case _ =>
  }

  lemma {:induction false} SurvivingItemsRead(items: W.Values)
    requires FormattableItems(items) && SurvivesItems(items)
    ensures NoDoublesItems(items) && RepresentableItems(items) && ItemsRead(items) == ToItems(items)
    decreases items
  {
    hide TreeRead, ItemsRead, ToTree;
    ItemsReadStep(items);
    if items.More? {
      SurvivorsRead(items.value);
      SurvivingItemsRead(items.next);
    }
  }

  lemma {:induction false} SurvivingEntriesRead(entries: W.Entries)
    requires FormattableEntries(entries) && SurvivesEntries(entries)
    ensures NoDoublesEntries(entries) && RepresentableEntries(entries) && MembersRead(entries) == ToMembers(entries)
    decreases entries
  {
    hide TreeRead, MembersRead, ToTree, CStr, ReadBackBytes;
    MembersReadStep(entries);
    if entries.Entry? {
      PlainReadsBack(entries.key);
      CStrIsNulFree(entries.key);
      SurvivorsRead(entries.value);
      SurvivingEntriesRead(entries.next);
    }
  }

  // ---- Nothing else survives ----

  ghost predicate HasKey(entries: W.Entries, key: string) {
    entries.Entry? && (entries.key == key || HasKey(entries.next, key))
  }

  ghost predicate HasName(members: Members, name: string) {
    members.Member? && (members.name == name || HasName(members.next, name))
  }

  lemma {:induction false} InsertHasKey(entries: W.Entries, key: string, v: W.Value, k: string)
    ensures HasKey(W.Insert(entries, key, v), k) <==> HasKey(entries, k) || k == key
  {
    hide StringLess;
    if entries.Entry? {
      InsertHasKey(entries.next, key, v, k);
    }
  }

  lemma {:induction false} NamesAreKeys(members: Members, acc: W.Entries, k: string)
    requires HasName(members, k) || HasKey(acc, k)
    ensures HasKey(FromMembers(members, acc), k)
    decreases members
  {
    hide FromTree;
    if members.Member? {
      InsertHasKey(acc, members.name, FromTree(members.value), k);
      NamesAreKeys(members.next, W.Insert(acc, members.name, FromTree(members.value)), k);
    }
  }

  lemma {:induction false} KeysAreRead(entries: W.Entries, k: string)
    requires FormattableEntries(entries) && HasKey(entries, k)
    ensures HasName(MembersRead(entries), ReadBackBytes(k))
    decreases entries
  {
    hide TreeRead, MembersRead, ReadBackBytes;
    MembersReadStep(entries);
    if entries.key != k {
      KeysAreRead(entries.next, k);
    }
  }

  lemma {:induction false} KeyIsNulFree(entries: W.Entries, k: string)
    requires RepresentableEntries(entries) && HasKey(entries, k)
    ensures NulFree(k)
    decreases entries
  {
    if entries.key != k {
      KeyIsNulFree(entries.next, k);
    }
  }

  ghost function LongestKey(entries: W.Entries): nat {
    if entries.NoEntry? then 0
    else if |entries.key| > LongestKey(entries.next) then |entries.key| else LongestKey(entries.next)
  }

  lemma {:induction false} KeyIsNoLonger(entries: W.Entries, k: string)
    requires HasKey(entries, k)
    ensures |k| <= LongestKey(entries)
    decreases entries
  {
    if entries.key != k {
      KeyIsNoLonger(entries.next, k);
    }
  }

  /** In a map that comes back no key has bytes above 127: what it is read as would be a longer such key. */
  lemma {:induction false} KeysArePlain(entries: W.Entries, k: string)
    requires FormattableEntries(entries) && RepresentableEntries(entries) && HasKey(entries, k)
    requires FromMembers(MembersRead(entries), W.NoEntry) == entries
    ensures IsPlain(k)
    decreases LongestKey(entries) - |k|
  {
    hide MembersRead, FromMembers, ReadBackBytes, FormattableEntries;
    KeyIsNulFree(entries, k);
    KeyIsNoLonger(entries, k);
    if !IsPlain(k) {
      var r := ReadBackBytes(k);
      ReadBackLength(k);
      KeysAreRead(entries, k);
      NamesAreKeys(MembersRead(entries), W.NoEntry, r);
      KeyIsNoLonger(entries, r);
      KeysArePlain(entries, r);
    }
  }

  lemma {:induction false} PlainKeysInOrder(entries: W.Entries)
    requires FormattableEntries(entries) && W.Sorted(entries) && forall k :: HasKey(entries, k) ==> IsPlain(k)
    ensures W.Sorted(EntriesOf(MembersRead(entries)))
    ensures entries.Entry? ==> MembersRead(entries).Member? && MembersRead(entries).name == entries.key
    decreases entries
  {
    hide TreeRead, MembersRead, FromTree, StringLess, IsPlain, ReadBackBytes;
    MembersReadStep(entries);
    if entries.Entry? {
      assert HasKey(entries, entries.key);
      PlainReadsBack(entries.key);
      assert forall k :: HasKey(entries.next, k) ==> HasKey(entries, k);
      PlainKeysInOrder(entries.next);
      MembersReadStep(entries.next);
    }
  }

  /** Only what survives comes back the same. */
  lemma {:induction false} ComesBackSurvives(v: W.Value)
    requires Formattable(v) && W.WellFormed(v) && Representable(v) && FromTree(TreeRead(v)) == v
    ensures Survives(v)
    decreases v
  {
    hide TreeRead, IsPlain, MembersRead, ItemsRead;
    ReadCases(v);
    match v
    case String(s) => ReadBackLength(s);
    case List(items) => ItemsComeBackSurvive(items);
    case Map(entries) =>
      forall k | HasKey(entries, k) ensures IsPlain(k) {
        KeysArePlain(entries, k);
      }
      PlainKeysInOrder(entries);
      MembersInOrder(MembersRead(entries), W.NoEntry);
      EntriesComeBackSurvive(entries);
    case _ =>
  }

  lemma {:induction false} ItemsComeBackSurvive(items: W.Values)
    requires FormattableItems(items) && W.WellFormedItems(items) && RepresentableItems(items)
    requires FromItems(ItemsRead(items)) == items
    ensures SurvivesItems(items)
    decreases items
  {
    hide TreeRead, ItemsRead, FromTree, Formattable, W.WellFormed, Representable, Survives;
    ItemsReadStep(items);
    if items.More? {
      ComesBackSurvives(items.value);
      ItemsComeBackSurvive(items.next);
    }
  }

  lemma {:induction false} EntriesComeBackSurvive(entries: W.Entries)
    requires FormattableEntries(entries) && W.WellFormedEntries(entries) && RepresentableEntries(entries)
    requires EntriesOf(MembersRead(entries)) == entries && forall k :: HasKey(entries, k) ==> IsPlain(k)
    ensures SurvivesEntries(entries)
    decreases entries
  {
    hide TreeRead, MembersRead, FromTree, Formattable, W.WellFormed, Representable, Survives, IsPlain, ReadBackBytes;
    MembersReadStep(entries);
    if entries.Entry? {
      assert HasKey(entries, entries.key);
      assert forall k :: HasKey(entries.next, k) ==> HasKey(entries, k);
      ComesBackSurvives(entries.value);
      EntriesComeBackSurvive(entries.next);
    }
  }

  /** What JSONFormatter writes always parses, and a value comes back from it exactly when it survives:
      no undefined value, no Integer of more than 32 bits, and only 7-bit strings without NUL. */
  lemma FormatRoundTripExactlyWhen(v: W.Value)
    requires Formattable(v) && W.WellFormed(v)
    ensures ParseValue(Skip(Spell(SyntaxOf(v)))) == Done(TreeRead(v), [])
    ensures FromJson(Spell(SyntaxOf(v))) == Some(FromTree(TreeRead(v)))
    ensures FromJson(Spell(SyntaxOf(v))) == Some(v) <==> Survives(v)
  {
    SyntaxIsValid(v);
    var t := Spell(SyntaxOf(v));
    assert Denotes(t, TreeRead(v));
    DenotedIsParsed([], t, [], TreeRead(v));
    assert [] + (t + []) == t;
    hide Spell, SyntaxOf, TreeRead, Skip, ParseValue, FromTree, Formattable, W.WellFormed, Survives, Meaning, Valid;
    FromTreeIsRepresentable(TreeRead(v));
    if Survives(v) {
      SurvivorsRead(v);
      TreeRoundTrip(v);
    }
    if FromTree(TreeRead(v)) == v {
      ComesBackSurvives(v);
    }
  }

  /** JSONFormatter then fromJSON. */
  method ThereAndBack(value: W.Value) returns (ret: W.Value, ok: bool)
    requires Formattable(value) && W.WellFormed(value)
    ensures ok && (ret == value <==> Survives(value))
  {
    FormatRoundTripExactlyWhen(value);
    SyntaxIsValid(value);
    SpelledIsNulFree(SyntaxOf(value));
    var text := Format(value);
    ret, ok := FromJSON(text);
  }
}
