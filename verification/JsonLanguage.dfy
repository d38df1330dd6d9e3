/**
 The language of parse_value: it reads the texts of the wider grammar of JsonGrammar and no others.
 */
module JsonLanguage {
  import opened Common
  import opened Ascii
  import opened JsonString
  import opened JsonStringCode
  import opened JsonText
  import opened JsonRoundTrip
  import opened JsonGrammar
  import opened JsonReading

  lemma OneMoreDigit(c: char, ds: string)
    requires IsDigit(c) && Digits(ds)
    ensures Digits([c] + ds)
  {
  }

  lemma NoDigit()
    ensures Digits([])
  {
  }

  lemma {:induction false} DigitsAreRead(acc: int, t: string) returns (ds: string)
    ensures Digits(ds) && t == ds + TakeDigits(acc, t).rest && !StartsWithDigit(TakeDigits(acc, t).rest)
    ensures StartsWithDigit(t) ==> ds != [] && ds[0] == t[0]
    decreases |t|
  {
    hide Digits;
    if StartsWithDigit(t) {
      var more := DigitsAreRead(acc * 10 + (t[0] as int - '0' as int), t[1..]);
      ds := [t[0]] + more;
      OneMoreDigit(t[0], more);
      assert t == [t[0]] + t[1..];
      Assoc([t[0]], more, TakeDigits(acc, t).rest);
    } else {
      NoDigit();
      ds := [];
    }
  }

  lemma ZeroIsRead(t: string) returns (whole: string)
    requires StartsWith(t, '0')
    ensures Digits(whole) && whole != [] && (|whole| >= 2 ==> whole[1] != '0')
    ensures t == whole + TakeWhole(t).rest && WholeEnds(whole, TakeWhole(t).rest)
  {
    hide TakeDigits, Digits;
    assert t == "0" + t[1..];
    NoDigit();
    if StartsWithDigit(t[1..]) && t[1..][0] != '0' {
      var ds := DigitsAreRead(0, t[1..]);
      whole := ['0'] + ds;
      OneMoreDigit('0', ds);
      Assoc("0", ds, TakeWhole(t).rest);
    } else {
      whole := "0";
      OneMoreDigit('0', []);
      assert ['0'] + [] == "0";
    }
  }

  lemma WholeIsRead(t: string) returns (whole: string)
    ensures Digits(whole) && (|whole| >= 2 && whole[0] == '0' ==> whole[1] != '0')
    ensures t == whole + TakeWhole(t).rest && WholeEnds(whole, TakeWhole(t).rest)
    ensures StartsWithDigit(t) ==> whole != []
  {
    hide TakeDigits, Digits;
    NoDigit();
    if StartsWith(t, '0') {
      whole := ZeroIsRead(t);
    } else if StartsWithDigit(t) {
      whole := DigitsAreRead(0, t);
    } else {
      whole := [];
    }
  }

  lemma FractionIsRead(n: int, t: string) returns (fraction: string)
    ensures Digits(fraction) && t == SpellFraction(fraction) + TakeFraction(n, t).rest
    ensures FractionEnds(fraction, TakeFraction(n, t).rest)
    ensures fraction == [] ==> TakeFraction(n, t).rest == t
  {
    hide TakeDigits;
    if StartsWith(t, '.') && StartsWithDigit(t[1..]) {
      fraction := DigitsAreRead(n, t[1..]);
      assert t == "." + t[1..];
    } else {
      fraction := [];
    }
  }

  /** The sign behind the mark of an exponent, and what follows. */
  function SignOf(t: string): string {
    if StartsWith(t, '+') then "+" else if StartsWith(t, '-') then "-" else ""
  }

  lemma BehindSign(t: string)
    requires StartsWith(t, 'e') || StartsWith(t, 'E')
    ensures var n := 1 + |SignOf(t[1..])|;
            && n <= |t| && t == [t[0]] + SignOf(t[1..]) + t[n..] && TakeExponent(t).rest == TakeDigits(0, t[n..]).rest
            && (SignOf(t[1..]) == [] ==> !StartsWith(t[n..], '+') && !StartsWith(t[n..], '-'))
  {
    hide TakeDigits;
    assert t == [t[0]] + t[1..];
  }

  lemma ExponentIsRead(t: string) returns (e: Exponent)
    ensures ReadableExponent(e) && t == SpellExponent(e) + TakeExponent(t).rest && ExponentEnds(e, TakeExponent(t).rest)
    ensures e.NoExponent? ==> TakeExponent(t).rest == t
  {
    hide TakeDigits, Digits;
    if StartsWith(t, 'e') || StartsWith(t, 'E') {
      BehindSign(t);
      var sign := SignOf(t[1..]);
      var ds := DigitsAreRead(0, t[1 + |sign|..]);
      e := Exponent.Exponent(t[0], sign, ds);
      hide TakeExponent;
      Assoc([t[0]] + sign, ds, TakeExponent(t).rest);
      if ds == [] {
        assert ds + TakeExponent(t).rest == TakeExponent(t).rest;
      }
    } else {
      e := NoExponent;
    }
  }

  lemma NumeralIsRead(t: string) returns (s: Syntax)
    requires StartsWith(t, '-') || StartsWithDigit(t)
    ensures s.Numeral? && Readable(s) && t == Spell(s) + ParseNumber(t).rest && Ends(s, ParseNumber(t).rest)
  {
    hide TakeWhole, TakeFraction, TakeExponent, WholeEnds, FractionEnds, ExponentEnds, SpellFraction, SpellExponent;
    hide Digits, ReadableExponent;
    var minus := StartsWith(t, '-');
    var t1 := if minus then t[1..] else t;
    var whole := WholeIsRead(t1);
    var t2 := TakeWhole(t1);
    var fraction := FractionIsRead(t2.value, t2.rest);
    var t3 := TakeFraction(t2.value, t2.rest);
    var exponent := ExponentIsRead(t3.rest);
    s := Numeral(minus, whole, fraction, exponent);
    var rest := TakeExponent(t3.rest).rest;
    SpelledNumeral(if minus then "-" else [], whole, SpellFraction(fraction), SpellExponent(exponent), rest);
    assert t == (if minus then "-" else []) + t1;
  }

  lemma SpelledNumeral(a: string, b: string, c: string, d: string, rest: string)
    ensures a + (b + (c + (d + rest))) == a + (b + (c + d)) + rest
  {
  }

  lemma FourAreRead(t: string) returns (h: string)
    requires "\\u" <= t && HasRoom(t[2..])
    ensures FourCharacters(h) && Hex4(h) == Hex4(t[2..]) && t == "\\u" + h + t[6..]
  {
    h := t[2..6];
    assert forall k | 0 <= k < 4 :: h[k] == t[2..][k];
  }

  lemma EscapeIsRead(t: string) returns (u: Unit)
    requires t != [] && t[0] == '\\' && DecodeEscape(t).Done?
    ensures ReadableUnit(u) && !u.Plain? && t == SpellUnit(u) + DecodeEscape(t).rest
    ensures u.Lone? ==> !("\\u" <= DecodeEscape(t).rest)
  {
    hide Hex4, HasRoom;
    if t[1] != 'u' {
      u := Short(t[1]);
    } else {
      var h := FourAreRead(t);
      var r := t[6..];
      if !IsHighSurrogate(Hex4(h)) {
        u := Basic(h);
      } else if !("\\u" <= r) {
        u := Lone(h);
      } else {
        var other := FourAreRead(r);
        u := if IsLowSurrogate(Hex4(other)) then Pair(h, other) else Unpaired(h, other);
        assert t == "\\u" + h + "\\u" + other + r[6..];
      }
    }
  }

  /** The units in front of the closing quote or the end of the text. */
  lemma {:induction false} UnitsAreRead(t: string) returns (us: seq<Unit>, tail: string)
    requires DecodeBody(t).Done?
    ensures ReadableUnits(us) && Closes(tail, DecodeBody(t).rest) && t == SpellUnits(us) + tail
    decreases |t|
  {
    hide DecodeEscape, ReadableUnit;
    if t == [] || t[0] == '\"' {
      us, tail := [], t;
      assert t != [] ==> t == "\"" + t[1..];
    } else {
      var u, behind := NextUnit(t);
      var more;
      more, tail := UnitsAreRead(behind);
      us := [u] + more;
      assert us[1..] == more;
      Assoc(SpellUnit(u), SpellUnits(more), tail);
      LoneIsFirst(u, more, tail);
    }
  }

  lemma NextUnit(t: string) returns (u: Unit, behind: string)
    requires t != [] && t[0] != '\"' && DecodeBody(t).Done?
    ensures ReadableUnit(u) && t == SpellUnit(u) + behind && |behind| < |t|
    ensures u.Lone? ==> !("\\u" <= behind)
    ensures DecodeBody(behind).Done? && DecodeBody(behind).rest == DecodeBody(t).rest
  {
    hide DecodeEscape;
    if t[0] == '\\' {
      u := EscapeIsRead(t);
      behind := DecodeEscape(t).rest;
    } else {
      u, behind := Plain(t[0]), t[1..];
    }
  }

  lemma LoneIsFirst(u: Unit, more: seq<Unit>, tail: string)
    requires ReadableUnits(more) && (u.Lone? ==> !("\\u" <= SpellUnits(more) + tail))
    ensures LoneIsLone([u] + more)
  {
    hide ReadableUnit, SpellUnits;
    assert LoneIsLone(more);
    if more != [] {
      EscapeOrNot(more, tail);
    }
  }

  lemma EscapeOrNot(us: seq<Unit>, tail: string)
    requires us != []
    ensures us[0].Plain? || us[0].Short? || "\\u" <= SpellUnits(us) + tail
  {
    Assoc(SpellUnit(us[0]), SpellUnits(us[1..]), tail);
  }

  lemma {:induction false} BlankIsSkipped(t: string) returns (b: string)
    ensures Blank(b) && t == b + Skip(t)
  {
    if t != [] && t[0] as int <= 32 {
      var more := BlankIsSkipped(t[1..]);
      b := [t[0]] + more;
      assert t == [t[0]] + t[1..];
    } else {
      b := [];
    }
  }

  lemma LiteralIsRead(t: string) returns (s: Syntax)
    requires StartsWith(t, '\"') && DecodeBody(t[1..]).Done?
    ensures (s.Literal? || s.Unclosed?) && Readable(s) && Ends(s, DecodeBody(t[1..]).rest)
    ensures t == Spell(s) + DecodeBody(t[1..]).rest
  {
    hide DecodeBody, ReadableUnits;
    var us, tail := UnitsAreRead(t[1..]);
    var rest := DecodeBody(t[1..]).rest;
    s := if tail == [] then Unclosed(us) else Literal(us);
    assert t == "\"" + t[1..];
    hide SpellUnits;
    QuotesAround(SpellUnits(us), rest);
  }

  lemma QuotesAround(inside: string, rest: string)
    ensures "\"" + (inside + ("\"" + rest)) == "\"" + inside + "\"" + rest
    ensures "\"" + (inside + []) == "\"" + inside + []
  {
  }

  /** Whatever is read is spelled according to the wider grammar. */
  lemma {:induction false} ParsedIsRead(t: string) returns (s: Syntax)
    requires ParseValue(t).Done?
    ensures Readable(s) && Ends(s, ParseValue(t).rest) && t == Spell(s) + ParseValue(t).rest
    decreases |t|, 1
  {
    hide DecodeBody, ParseNumber, ParseItems, ParseMembers;
    if "null" <= t {
      s := NullWord;
    } else if "false" <= t {
      s := FalseWord;
    } else if "true" <= t {
      s := TrueWord;
    } else if StartsWith(t, '\"') {
      s := LiteralIsRead(t);
    } else if StartsWith(t, '-') || StartsWithDigit(t) {
      s := NumeralIsRead(t);
    } else if StartsWith(t, '[') {
      s := ArrayIsRead(t);
    } else {
      s := ObjectIsRead(t);
    }
  }

  lemma NothingInside(tail: string)
    ensures SpellElements(NoElement) + tail == tail && SpellFields(NoField) + tail == tail
  {
  }

  lemma ArraySpelled(b: string, es: Elements, rest: string)
    ensures Spell(Brackets(b, es)) + rest == "[" + (b + (SpellElements(es) + ("]" + rest)))
  {
    hide SpellElements;
    Bracketed("[", b, SpellElements(es), "]", rest);
  }

  lemma InsideArray(t: string)
    requires StartsWith(t, '[') && ParseValue(t).Done?
    ensures var t1 := Skip(t[1..]);
            if StartsWith(t1, ']') then ParseValue(t).rest == t1[1..]
            else ParseItems(t1).Done? && ParseValue(t).rest == ParseItems(t1).rest
  {
    hide ParseItems;
  }

  lemma ArrayIsRead(t: string) returns (s: Syntax)
    requires StartsWith(t, '[') && ParseValue(t).Done?
    ensures s.Brackets? && Readable(s) && t == Spell(s) + ParseValue(t).rest
    decreases |t|, 0
  {
    hide Blank, ParseItems, ParseValue, Spell, SpellElements, SpellFields, Skip;
    InsideArray(t);
    var rest := ParseValue(t).rest;
    var b := BlankIsSkipped(t[1..]);
    var t1 := Skip(t[1..]);
    assert t == "[" + t[1..];
    if StartsWith(t1, ']') {
      s := Brackets(b, NoElement);
      assert t1 == "]" + t1[1..];
      NothingInside("]" + rest);
      ArraySpelled(b, NoElement, rest);
    } else {
      SkipTwice(t[1..]);
      assert ParseItems(t[1..]) == ParseItems(t1);
      var es := ItemsAreRead(t[1..]);
      NothingBlank();
      s := Brackets([], es);
      ArraySpelled([], es, rest);
      assert [] + (SpellElements(es) + ("]" + rest)) == SpellElements(es) + ("]" + rest);
    }
  }

  lemma NothingBlank()
    ensures Blank([])
  {
  }

  lemma {:induction false} SkipTwice(t: string)
    ensures Skip(Skip(t)) == Skip(t) && ParseItems(Skip(t)) == ParseItems(t) && ParseMembers(Skip(t)) == ParseMembers(t)
  {
    hide ParseValue, ParseText;
    SkipStops(t);
  }

  lemma {:induction false} SkipStops(t: string)
    ensures Skip(Skip(t)) == Skip(t)
  {
    if t != [] && t[0] as int <= 32 {
      SkipStops(t[1..]);
    }
  }

  lemma {:induction false} ItemsAreRead(t: string) returns (es: Elements)
    requires ParseItems(t).Done?
    ensures es.Element? && ReadableElements(es) && t == SpellElements(es) + ("]" + ParseItems(t).rest)
    decreases |t|, 2
  {
    hide ParseValue, ParseMembers, Spell, Readable, Blank;
    var b := BlankIsSkipped(t);
    var s := ParsedIsRead(Skip(t));
    var rest := ParseValue(Skip(t)).rest;
    var c := BlankIsSkipped(rest);
    var t1 := Skip(rest);
    UnclosedIsLast(s, rest);
    if StartsWith(t1, ',') {
      var more := ItemsAreRead(t1[1..]);
      es := Element(b, s, c, more);
      assert t1 == "," + t1[1..];
      Assoc(",", SpellElements(more), "]" + ParseItems(t).rest);
      Regroup4(b, Spell(s), c, "," + SpellElements(more), "]" + ParseItems(t).rest);
    } else {
      es := Element(b, s, c, NoElement);
      assert t1 == "]" + t1[1..];
      Regroup4(b, Spell(s), c, [], "]" + ParseItems(t).rest);
      assert [] + ("]" + ParseItems(t).rest) == "]" + ParseItems(t).rest;
    }
  }

  lemma UnclosedIsLast(s: Syntax, rest: string)
    requires Ends(s, rest)
    ensures s.Unclosed? ==> Skip(rest) == []
  {
  }

  lemma ObjectSpelled(b: string, fs: Fields, rest: string)
    ensures Spell(Braces(b, fs)) + rest == "{" + (b + (SpellFields(fs) + ("}" + rest)))
  {
    hide SpellFields;
    Bracketed("{", b, SpellFields(fs), "}", rest);
  }

  lemma InsideObject(t: string)
    requires StartsWith(t, '{') && ParseValue(t).Done?
    ensures var t1 := Skip(t[1..]);
            if StartsWith(t1, '}') then ParseValue(t).rest == t1[1..]
            else ParseMembers(t1).Done? && ParseValue(t).rest == ParseMembers(t1).rest
  {
    hide ParseMembers;
  }

  lemma ObjectIsRead(t: string) returns (s: Syntax)
    requires StartsWith(t, '{') && ParseValue(t).Done?
    ensures s.Braces? && Readable(s) && t == Spell(s) + ParseValue(t).rest
    decreases |t|, 0
  {
    hide Blank, ParseMembers, ParseValue, Spell, SpellElements, SpellFields, Skip;
    InsideObject(t);
    var rest := ParseValue(t).rest;
    var b := BlankIsSkipped(t[1..]);
    var t1 := Skip(t[1..]);
    assert t == "{" + t[1..];
    if StartsWith(t1, '}') {
      s := Braces(b, NoField);
      assert t1 == "}" + t1[1..];
      NothingInside("}" + rest);
      ObjectSpelled(b, NoField, rest);
    } else {
      SkipTwice(t[1..]);
      assert ParseMembers(t[1..]) == ParseMembers(t1);
      var fs := MembersAreRead(t[1..]);
      NothingBlank();
      s := Braces([], fs);
      ObjectSpelled([], fs, rest);
      assert [] + (SpellFields(fs) + ("}" + rest)) == SpellFields(fs) + ("}" + rest);
    }
  }

  /** The name of a member, up to the text of its value. */
  lemma NameIsRead(t: string) returns (name: seq<Unit>, gap: string, b: string)
    requires ParseText(t).Done? && StartsWith(Skip(ParseText(t).rest), ':')
    ensures ReadableUnits(name) && Blank(gap) && Blank(b)
    ensures t == SpellLiteral(name) + (gap + (":" + (b + Skip(Skip(ParseText(t).rest)[1..]))))
  {
    hide DecodeBody, ReadableUnits, Blank;
    var rest := ParseText(t).rest;
    var s := LiteralIsRead(t);
    UnclosedIsLast(s, rest);
    name := s.units;
    gap := BlankIsSkipped(rest);
    var t1 := Skip(rest);
    b := BlankIsSkipped(t1[1..]);
    assert t1 == ":" + t1[1..];
  }

  lemma {:induction false} MembersAreRead(t: string) returns (fs: Fields)
    requires ParseMembers(t).Done?
    ensures fs.Field? && ReadableFields(fs) && t == SpellFields(fs) + ("}" + ParseMembers(t).rest)
    decreases |t|, 2
  {
    hide ParseValue, ParseItems, ParseText, Spell, SpellLiteral, Readable, ReadableUnits, Blank;
    TextShrinks(Skip(t));
    var b := BlankIsSkipped(t);
    var name, gap, b' := NameIsRead(Skip(t));
    var text := Skip(Skip(ParseText(Skip(t)).rest)[1..]);
    var s := ParsedIsRead(text);
    var rest := ParseValue(text).rest;
    var c := BlankIsSkipped(rest);
    var t1 := Skip(rest);
    UnclosedIsLast(s, rest);
    var last := "}" + ParseMembers(t).rest;
    if StartsWith(t1, ',') {
      var more := MembersAreRead(t1[1..]);
      fs := Field(b, name, gap, b', s, c, more);
      assert t1 == "," + t1[1..];
      Assoc(",", SpellFields(more), last);
      FieldSpelled(fs, "," + SpellFields(more), last);
    } else {
      fs := Field(b, name, gap, b', s, c, NoField);
      assert t1 == "}" + t1[1..];
      FieldSpelled(fs, [], last);
      assert [] + last == last;
    }
  }

  lemma FieldSpelled(fs: Fields, more: string, last: string)
    requires fs.Field? && more == (if fs.next.NoField? then [] else "," + SpellFields(fs.next))
    ensures SpellFields(fs) + last == fs.before + (SpellLiteral(fs.name) + (fs.behindName + (":" + (fs.beforeValue + (
                                        Spell(fs.value) + (fs.behind + (more + last)))))))
  {
    hide Spell, SpellLiteral;
    var v := Spell(fs.value);
    Regroup4(":", fs.beforeValue, v, fs.behind + more, last);
    Assoc(fs.behind, more, last);
    Regroup4(fs.before, SpellLiteral(fs.name), fs.behindName, ":" + (fs.beforeValue + (v + (fs.behind + more))), last);
  }

  /** A minus sign alone is no JSON text and yet read, as 0. */
  lemma ReadsMoreThanJson()
    ensures ParseValue("-") == Done(Number(0, 0), []) && forall v :: !Denotes("-", v)
  {
    var s := Numeral(true, [], [], NoExponent);
    assert Spell(s) == "-" && Spell(s) + [] == "-";
    ReadSpelled(s, []);
    assert s.whole + s.fraction == [] && Meaning(s) == Number(0, 0);
    forall v
      ensures !Denotes("-", v)
    {
      NoSpellingOfMinus();
    }
  }

  lemma NoSpellingOfMinus()
    ensures forall s :: Valid(s) ==> Spell(s) != "-"
  {
    forall s | Valid(s)
      ensures Spell(s) != "-"
    {
      if s.Numeral? {
        hide SpellFraction, SpellExponent;
        assert |Spell(s)| >= |s.whole| + (if s.minus then 1 else 0);
        assert !s.minus ==> Spell(s)[0] == s.whole[0];
      }
    }
  }

  /** A backslash before a letter that section 7 of RFC 8259 does not list is no JSON and yet read, as
      that letter. */
  lemma ReadsUnknownEscapes(c: char)
    requires c !in "\"\\/bfnrtu"
    ensures ParseValue(['\"', '\\', c, '\"']) == Done(Text([c]), [])
    ensures forall v :: !Denotes(['\"', '\\', c, '\"'], v)
  {
    var us, t := [Short(c)], ['\"', '\\', c, '\"'];
    assert us[1..] == [] && SpellUnits(us) == ['\\', c];
    assert Spell(Literal(us)) + [] == t;
    assert "\"\\/bfnrtu" == "\"\\/bfnrt" + "u" && 'u' in "u";
    ReadSpelled(Literal(us), []);
    UnescapeMeans(c);
    hide ParseValue;
    assert UnitsMean(us) == [Unescape(c)] + UnitsMean(us[1..]) == [c];
    forall v
      ensures !Denotes(t, v)
    {
      forall s | Valid(s)
        ensures Spell(s) != t
      {
        NoSpellingOfEscape(s, c);
      }
    }
  }

  lemma NoSpellingOfEscape(s: Syntax, c: char)
    requires Valid(s) && c !in "\"\\/bfnrtu"
    ensures Spell(s) != ['\"', '\\', c, '\"']
  {
    if s.Numeral? {
      hide SpellFraction, SpellExponent;
      assert Spell(s)[0] == if s.minus then '-' else s.whole[0];
    } else if s.Literal? {
      if SpellUnits(s.units) == ['\\', c] {
        FirstUnit(s.units, c);
      }
      var inside := Spell(s)[1..|Spell(s)| - 1];
      assert inside == SpellUnits(s.units);
    } else if Spell(s) != [] {
      assert Spell(s)[0] != '\"';
    }
  }

  lemma FirstUnit(us: seq<Unit>, c: char)
    requires ValidUnits(us) && SpellUnits(us) == ['\\', c]
    ensures c in "\"\\/bfnrtu"
  {
    var u := us[0];
    assert ValidUnit(u);
    var t, first := SpellUnits(us), SpellUnit(u);
    assert t == first + SpellUnits(us[1..]);
    assert t[0] == first[0] == '\\' && |first| <= 2;
    assert !u.Basic? && !u.Lone? && !u.Pair? && !u.Unpaired?;
    assert u.Short? && t[1] == u.letter;
    assert "\"\\/bfnrtu" == "\"\\/bfnrt" + "u";
  }

  /** `t` begins with a spelling of `v` that `rest` follows without continuing it. */
  ghost predicate Reads(t: string, v: Json, rest: string) {
    exists s :: Readable(s) && Ends(s, rest) && t == Spell(s) + rest && v == Meaning(s)
  }

  /** The parser reads exactly the wider grammar, each text as what it means. */
  lemma ParsedExactlyWhen(t: string, v: Json, rest: string)
    ensures ParseValue(t) == Done(v, rest) <==> Reads(t, v, rest)
  {
    hide ParseValue, Readable, Ends, Spell, Meaning;
    if ParseValue(t) == Done(v, rest) {
      var s := ParsedIsRead(t);
      ReadSpelled(s, rest);
    }
    if Reads(t, v, rest) {
      var s :| Readable(s) && Ends(s, rest) && t == Spell(s) + rest && v == Meaning(s);
      ReadSpelled(s, rest);
    }
  }
}
