/**
 cJSON_Minify on JSON texts: it takes the blanks out of their syntax and nothing else.
 */
module JsonCompact {
  import opened Common
  import opened Ascii
  import opened JsonString
  import opened JsonText
  import opened JsonRoundTrip
  import opened JsonGrammar
  import opened JsonReading
  import M = JsonMinify

  /** The syntax without blanks. */
  function Compact(s: Syntax): Syntax
    decreases s
  {
    match s
    case Brackets(_, elements) => Brackets([], CompactElements(elements))
    case Braces(_, fields) => Braces([], CompactFields(fields))
    case _ => s
  }

  function CompactElements(es: Elements): Elements
    decreases es
  {
    if es.NoElement? then NoElement else Element([], Compact(es.value), [], CompactElements(es.next))
  }

  function CompactFields(fs: Fields): Fields
    decreases fs
  {
    if fs.NoField? then NoField else Field([], fs.name, [], [], Compact(fs.value), [], CompactFields(fs.next))
  }

  lemma {:induction false} CompactMeans(s: Syntax)
    requires Valid(s)
    ensures Valid(Compact(s)) && Meaning(Compact(s)) == Meaning(s) && Compact(Compact(s)) == Compact(s)
    decreases s
  {
    match s
    case Brackets(_, elements) => CompactElementsMean(elements);
    case Braces(_, fields) => CompactFieldsMean(fields);
    case _ =>
  }

  lemma {:induction false} CompactElementsMean(es: Elements)
    requires ValidElements(es)
    ensures ValidElements(CompactElements(es)) && ElementsMean(CompactElements(es)) == ElementsMean(es)
    ensures CompactElements(CompactElements(es)) == CompactElements(es)
    decreases es
  {
    hide Valid, Meaning, Compact;
    if es.Element? {
      CompactMeans(es.value);
      CompactElementsMean(es.next);
    }
  }

  lemma {:induction false} CompactFieldsMean(fs: Fields)
    requires ValidFields(fs)
    ensures ValidFields(CompactFields(fs)) && FieldsMean(CompactFields(fs)) == FieldsMean(fs)
    ensures CompactFields(CompactFields(fs)) == CompactFields(fs)
    decreases fs
  {
    hide Valid, Meaning, Compact, UnitsMean, ValidUnits;
    if fs.Field? {
      CompactMeans(fs.value);
      CompactFieldsMean(fs.next);
    }
  }

  // ---- Literals ----

  lemma PlainLength(c: char, rest: string)
    requires c != '\"' && c != '\\' && M.LiteralLength(rest) > 0
    ensures M.LiteralLength([c] + rest) == 1 + M.LiteralLength(rest)
  {
    assert ([c] + rest)[1..] == rest;
  }

  lemma ShortLength(letter: char, rest: string)
    requires M.LiteralLength(rest) > 0
    ensures M.LiteralLength(['\\', letter] + rest) == 2 + M.LiteralLength(rest)
  {
    assert (['\\', letter] + rest)[2..] == rest;
  }

  lemma TwoHexLength(h: string, g: string, rest: string)
    requires FourCharacters(h) && FourCharacters(g) && M.LiteralLength(rest) > 0
    ensures M.LiteralLength("\\u" + h + "\\u" + g + rest) == 12 + M.LiteralLength(rest)
  {
    hide M.LiteralLength;
    HexLength(g, rest);
    HexLength(h, "\\u" + g + rest);
    assert "\\u" + h + "\\u" + g + rest == "\\u" + h + ("\\u" + g + rest);
  }

  lemma HexLength(h: string, rest: string)
    requires FourCharacters(h) && M.LiteralLength(rest) > 0
    ensures M.LiteralLength("\\u" + h + rest) == 6 + M.LiteralLength(rest)
  {
    M.LiteralHex(h, rest);
    assert ("\\u" + h + rest)[2..] == h + rest;
  }

  lemma UnitLength(u: Unit, rest: string)
    requires ValidUnit(u) && M.LiteralLength(rest) > 0
    ensures M.LiteralLength(SpellUnit(u) + rest) == |SpellUnit(u)| + M.LiteralLength(rest)
  {
    hide M.LiteralLength, Hex4, HexValue, HasRoom;
    match u
    case Plain(c) => PlainLength(c, rest);
    case Short(letter) => ShortLength(letter, rest);
    case Basic(h) => HexLength(h, rest);
    case Lone(h) => HexLength(h, rest);
    case Pair(h, g) => TwoHexLength(h, g, rest);
    case Unpaired(h, g) => TwoHexLength(h, g, rest);
  }

  lemma {:induction false} UnitsLength(us: seq<Unit>, rest: string)
    requires ValidUnits(us)
    ensures M.LiteralLength(SpellUnits(us) + ("\"" + rest)) == |SpellUnits(us)| + 1
  {
    hide M.LiteralLength, SpellUnit, ValidUnit;
    if us == [] {
      assert SpellUnits(us) + ("\"" + rest) == "\"" + rest;
      M.LiteralQuote(rest);
    } else {
      UnitsLength(us[1..], rest);
      UnitLength(us[0], SpellUnits(us[1..]) + ("\"" + rest));
      Assoc(SpellUnit(us[0]), SpellUnits(us[1..]), "\"" + rest);
    }
  }

  lemma SqueezeLiteral(us: seq<Unit>)
    requires ValidUnits(us)
    ensures M.Squeezes(SpellLiteral(us), SpellLiteral(us))
  {
    hide SpellUnits, ValidUnits;
    forall rest
      ensures M.Minified(SpellLiteral(us) + rest) == M.Keep(SpellLiteral(us), M.Minified(rest))
    {
      UnitsLength(us, rest);
      M.MinifyLiteral(SpellUnits(us), rest);
    }
  }

  lemma SqueezeNumeral(s: Syntax)
    requires s.Numeral? && Valid(s)
    ensures M.Squeezes(Spell(s), Spell(s))
  {
    NumeralIsPlain(s);
    M.SqueezePlain(Spell(s));
  }

  lemma NumeralIsPlain(s: Syntax)
    requires s.Numeral? && Valid(s)
    ensures M.Plain(Spell(s))
  {
    hide Digits;
    DigitsArePlain(s.whole);
    DigitsArePlain(s.fraction);
    if s.exponent.Exponent? {
      DigitsArePlain(s.exponent.digits);
    }
  }

  lemma DigitsArePlain(ds: string)
    requires Digits(ds)
    ensures M.Plain(ds)
  {
  }

  // ---- Values ----

  /** In front of any text, minifying takes the blanks out of a JSON text. */
  lemma {:induction false} SqueezeSyntax(s: Syntax)
    requires Valid(s)
    ensures M.Squeezes(Spell(s), Spell(Compact(s)))
    decreases s
  {
    hide M.Squeezes, M.Plain, Spaces, SpellElements, SpellFields;
    match s
    case NullWord => M.SqueezeWords();
    case FalseWord => M.SqueezeWords();
    case TrueWord => M.SqueezeWords();
    case Numeral(_, _, _, _) => SqueezeNumeral(s);
    case Literal(units) => SqueezeLiteral(units);
    case Brackets(blank, elements) =>
      SqueezeElements(elements);
      SqueezeBetween("[", blank, SpellElements(elements), SpellElements(CompactElements(elements)), "]");
    case Braces(blank, fields) =>
      SqueezeFields(fields);
      SqueezeBetween("{", blank, SpellFields(fields), SpellFields(CompactFields(fields)), "}");
  }

  lemma SqueezeBetween(open: string, blank: string, inside: string, inside': string, close: string)
    requires (open == "[" && close == "]") || (open == "{" && close == "}")
    requires Spaces(blank) && M.Squeezes(inside, inside')
    ensures M.Squeezes(open + (blank + (inside + close)), open + ([] + (inside' + close)))
  {
    M.SqueezePlain(open);
    M.SqueezePlain(close);
    M.SqueezeSpaces(blank);
    hide M.Squeezes, Spaces;
    M.Join(inside, inside', close, close);
    M.Join(blank, [], inside + close, inside' + close);
    M.Join(open, open, blank + (inside + close), [] + (inside' + close));
  }

  lemma {:induction false} SqueezeElements(es: Elements)
    requires ValidElements(es)
    ensures M.Squeezes(SpellElements(es), SpellElements(CompactElements(es)))
    decreases es
  {
    hide M.Squeezes, Valid, Spell, Compact, Spaces;
    if es.NoElement? {
      M.SqueezeNothing();
    } else {
      SqueezeSyntax(es.value);
      SqueezeElements(es.next);
      var more := if es.next.NoElement? then [] else "," + SpellElements(es.next);
      var more' := if es.next.NoElement? then [] else "," + SpellElements(CompactElements(es.next));
      SqueezeMore(es.next.NoElement?, SpellElements(es.next), SpellElements(CompactElements(es.next)));
      SqueezeBlanks(es.behind, more, more');
      M.Join(Spell(es.value), Spell(Compact(es.value)), es.behind + more, [] + more');
      SqueezeBlanks(es.before, Spell(es.value) + (es.behind + more), Spell(Compact(es.value)) + ([] + more'));
    }
  }

  lemma SqueezeMore(last: bool, more: string, more': string)
    requires M.Squeezes(more, more')
    ensures M.Squeezes(if last then [] else "," + more, if last then [] else "," + more')
  {
    if last {
      M.SqueezeNothing();
    } else {
      M.SqueezePlain(",");
      hide M.Squeezes;
      M.Join(",", ",", more, more');
    }
  }

  lemma SqueezeBlanks(b: string, t: string, t': string)
    requires Spaces(b) && M.Squeezes(t, t')
    ensures M.Squeezes(b + t, [] + t')
  {
    M.SqueezeSpaces(b);
    hide M.Squeezes;
    M.Join(b, [], t, t');
  }

  lemma {:induction false} SqueezeFields(fs: Fields)
    requires ValidFields(fs)
    ensures M.Squeezes(SpellFields(fs), SpellFields(CompactFields(fs)))
    decreases fs
  {
    hide M.Squeezes, Valid, ValidUnits, Spell, SpellLiteral, Compact, Spaces;
    if fs.NoField? {
      M.SqueezeNothing();
    } else {
      SqueezeSyntax(fs.value);
      SqueezeFields(fs.next);
      var more := if fs.next.NoField? then [] else "," + SpellFields(fs.next);
      var more' := if fs.next.NoField? then [] else "," + SpellFields(CompactFields(fs.next));
      SqueezeMore(fs.next.NoField?, SpellFields(fs.next), SpellFields(CompactFields(fs.next)));
      SqueezeField(fs, Spell(Compact(fs.value)), more, more');
    }
  }

  lemma SqueezeField(fs: Fields, v: string, more: string, more': string)
    requires fs.Field? && ValidFields(fs) && M.Squeezes(Spell(fs.value), v) && M.Squeezes(more, more')
    ensures M.Squeezes(fs.before + (SpellLiteral(fs.name) + (fs.behindName + (":" + (fs.beforeValue + (Spell(fs.value) +
                         (fs.behind + more)))))),
                       [] + (SpellLiteral(fs.name) + ([] + (":" + ([] + (v + ([] + more')))))))
  {
    SqueezeLiteral(fs.name);
    M.SqueezePlain(":");
    hide M.Squeezes, Valid, ValidUnits, Spell, SpellLiteral, Spaces;
    var a, a' := fs.behind + more, [] + more';
    SqueezeBlanks(fs.behind, more, more');
    M.Join(Spell(fs.value), v, a, a');
    var b, b' := Spell(fs.value) + a, v + a';
    SqueezeBlanks(fs.beforeValue, b, b');
    M.Join(":", ":", fs.beforeValue + b, [] + b');
    var c, c' := ":" + (fs.beforeValue + b), ":" + ([] + b');
    SqueezeBlanks(fs.behindName, c, c');
    M.Join(SpellLiteral(fs.name), SpellLiteral(fs.name), fs.behindName + c, [] + c');
    SqueezeBlanks(fs.before, SpellLiteral(fs.name) + (fs.behindName + c), SpellLiteral(fs.name) + ([] + c'));
  }

  /** Minifying a JSON text between blanks leaves the spelling of its syntax without blanks. */
  lemma MinifySpelled(b: string, s: Syntax, b': string)
    requires Spaces(b) && Spaces(b') && Valid(s)
    ensures M.Minified(b + (Spell(s) + b')) == M.Squeezed(Spell(Compact(s)))
  {
    hide M.Minified, Spell, Compact;
    SqueezeSyntax(s);
    M.MinifySpaces(b, Spell(s) + b');
    assert M.Minified(Spell(s) + b') == M.Keep(Spell(Compact(s)), M.Minified(b'));
    M.MinifySpaces(b', []);
    M.MinifiedEmpty();
    assert b' + [] == b' && Spell(Compact(s)) + [] == Spell(Compact(s));
  }

  /** So minifying keeps what a JSON text denotes and how it parses, and minifying again changes nothing. */
  lemma MinifyKeepsMeaning(b: string, t: string, b': string, v: Json)
    requires Spaces(b) && Spaces(b') && Denotes(t, v)
    ensures M.Minified(b + (t + b')).Squeezed?
    ensures var m := M.Minified(b + (t + b')).text;
            Denotes(m, v) && ParseValue(m) == Done(v, []) && M.Minified(m) == M.Squeezed(m)
  {
    hide M.Minified, Spell, Compact, Valid, Meaning, ParseValue;
    var s :| Valid(s) && Spell(s) == t && Meaning(s) == v;
    MinifySpelled(b, s, b');
    CompactMeans(s);
    MinifySpelled([], Compact(s), []);
    var m := Spell(Compact(s));
    assert [] + (m + []) == m && m + [] == m;
    ParseSpelled(Compact(s), []);
  }
}
