/**
 Parsing undoes printing, in both layouts and at any depth (cJSON/cJSON.c).
 */
module JsonRoundTrip {
  import opened Common
  import opened Ascii
  import opened JsonString
  import opened JsonStringCode
  import opened JsonText

  predicate Blank(b: string) { forall k | 0 <= k < |b| :: b[k] as int <= 32 }

  /** `t` begins with a character that `skip` stops at. */
  predicate Visible(t: string) { t != [] && t[0] as int > 32 }

  /** A text that cannot be mistaken for more of a number. */
  predicate EndsNumber(t: string) {
    t == [] || (!IsDigit(t[0]) && t[0] != '.' && t[0] != 'e' && t[0] != 'E')
  }

  lemma {:induction false} SkipBlank(b: string, t: string)
    requires Blank(b) && Visible(t)
    ensures Skip(b + t) == t
  {
    if b == [] {
      assert b + t == t;
    } else {
      SkipBlank(b[1..], t);
      assert (b + t)[1..] == b[1..] + t;
    }
  }

  lemma {:induction false} TabsAreBlank(n: int)
    ensures Blank(Tabs(n))
  {
    if n > 0 {
      TabsAreBlank(n - 1);
    }
  }

  // ---- Integers ----

  lemma {:induction false} DecimalDigits(n: nat)
    ensures Decimal(n) != [] && IsDigit(Decimal(n)[0])
    ensures n == 0 ==> Decimal(n) == "0"
    ensures n > 0 ==> Decimal(n)[0] != '0'
    ensures forall k | 0 <= k < |Decimal(n)| :: IsDigit(Decimal(n)[k])
  {
    if n >= 10 {
      DecimalDigits(n / 10);
    }
  }

  lemma TakeOne(acc: int, d: nat, rest: string)
    requires d < 10
    ensures TakeDigits(acc, [Digit(d)] + rest) == TakeDigits(acc * 10 + d, rest)
  {
    assert ([Digit(d)] + rest)[1..] == rest;
  }

  lemma {:induction false} TakeDecimal(n: nat, rest: string)
    ensures TakeDigits(0, Decimal(n) + rest) == TakeDigits(n, rest)
    decreases n
  {
    hide TakeDigits, Digit;
    if n < 10 {
      TakeOne(0, n, rest);
    } else {
      var d := [Digit(n % 10)];
      TakeDecimal(n / 10, d + rest);
      Assoc(Decimal(n / 10), d, rest);
      TakeOne(n / 10, n % 10, rest);
    }
  }

  lemma TakeWholeDecimal(n: nat, rest: string)
    requires EndsNumber(rest)
    ensures TakeWhole(Decimal(n) + rest) == Read(n, rest)
  {
    DecimalDigits(n);
    if n == 0 {
      assert ("0" + rest)[1..] == rest;
    } else {
      TakeDecimal(n, rest);
    }
  }

  lemma ParsePrintNat(n: nat, rest: string)
    requires EndsNumber(rest)
    ensures StartsWithDigit(Decimal(n)) && Decimal(n)[0] != '-'
    ensures ParseNumber(Decimal(n) + rest) == Done(Number(n, 0), rest)
    ensures ParseNumber("-" + (Decimal(n) + rest)) == Done(Number(-(n as int), 0), rest)
  {
    DecimalDigits(n);
    TakeWholeDecimal(n, rest);
    hide TakeWhole, Decimal;
    assert ("-" + (Decimal(n) + rest))[1..] == Decimal(n) + rest;
  }

  lemma ParsePrintInt(n: int, rest: string)
    requires EndsNumber(rest)
    ensures ParseNumber(PrintInt(n) + rest) == Done(Number(n, 0), rest)
    ensures StartsWith(PrintInt(n), '-') || StartsWithDigit(PrintInt(n))
  {
    hide ParseNumber, Decimal;
    if n < 0 {
      ParsePrintNat(-n, rest);
      Assoc("-", Decimal(-n), rest);
    } else {
      ParsePrintNat(n, rest);
    }
  }

  // ---- Values ----

  /** Every printed value begins with a visible character other than the closing ones. */
  lemma PrintedIsVisible(v: Json, depth: nat, fmt: bool)
    ensures var t := PrintValue(v, depth, fmt); Visible(t) && t[0] != ']' && t[0] != '}'
  {
    match v
    case Number(m, _) => ParsePrintInt(m, []);
    case _ =>
  }

  lemma ParseLiterals(rest: string)
    ensures ParseValue("null" + rest) == Done(Null, rest)
    ensures ParseValue("false" + rest) == Done(False, rest)
    ensures ParseValue("true" + rest) == Done(True, rest)
  {
    hide Skip, ParseItems, ParseMembers, DecodeBody, ParseNumber;
    assert ("null" + rest)[4..] == rest && ("false" + rest)[5..] == rest && ("true" + rest)[4..] == rest;
    assert "null" <= "null" + rest && "false" <= "false" + rest && "true" <= "true" + rest;
    assert ("false" + rest)[0] == 'f' && ("true" + rest)[0] == 't';
  }

  lemma ParseTextValue(t: string, s: string, rest: string)
    requires StartsWith(t, '\"') && DecodeBody(t[1..]) == Done(s, rest)
    ensures ParseText(t) == Done(s, rest) && ParseValue(t) == Done(Text(s), rest)
  {
    hide DecodeBody, ParseNumber, ParseItems, ParseMembers, Skip;
  }

  lemma ParseQuoted(s: string, rest: string)
    requires NulFree(s)
    ensures ParseText(Quoted(s) + rest) == Done(s, rest)
    ensures ParseValue(Quoted(s) + rest) == Done(Text(s), rest)
  {
    var t := Quoted(s) + rest;
    DecodeInvertsEscape(s, rest);
    assert t[1..] == Escape(s, true) + ("\"" + rest);
    hide DecodeBody, Escape, ParseText, ParseValue;
    ParseTextValue(t, s, rest);
  }

  lemma ParseNumberValue(t: string)
    requires StartsWith(t, '-') || StartsWithDigit(t)
    ensures ParseValue(t) == ParseNumber(t)
  {
    hide ParseNumber, ParseItems, ParseMembers, DecodeBody, Skip;
  }

  lemma ParseInt(n: int, rest: string)
    requires EndsNumber(rest)
    ensures ParseValue(PrintInt(n) + rest) == Done(Number(n, 0), rest)
  {
    hide PrintInt, ParseNumber, ParseValue;
    ParsePrintInt(n, rest);
    assert (PrintInt(n) + rest)[0] == PrintInt(n)[0];
    ParseNumberValue(PrintInt(n) + rest);
  }

  /** An array or object, given how its inside parses. */
  lemma ParseArray(b: string, text: string, items: Items, rest: string)
    requires Blank(b) && Visible(text) && text[0] != ']'
    requires ParseItems(text) == Done(items, rest)
    ensures ParseValue("[" + (b + text)) == Done(Array(items), rest)
  {
    SkipBlank(b, text);
    assert ("[" + (b + text))[1..] == b + text;
    hide Skip, ParseItems, ParseMembers, DecodeBody;
  }

  lemma ParseEmptyArray(b: string, rest: string)
    requires Blank(b)
    ensures ParseValue("[" + (b + ("]" + rest))) == Done(Array(NoItem), rest)
  {
    var t := "[" + (b + ("]" + rest));
    assert t[1..] == b + ("]" + rest) && ("]" + rest)[1..] == rest;
    SkipBlank(b, "]" + rest);
    hide ParseItems, ParseMembers, DecodeBody;
  }

  lemma ParseObject(b: string, text: string, members: Members, rest: string)
    requires Blank(b) && Visible(text) && text[0] != '}'
    requires ParseMembers(text) == Done(members, rest)
    ensures ParseValue("{" + (b + text)) == Done(Object(members), rest)
  {
    SkipBlank(b, text);
    assert ("{" + (b + text))[1..] == b + text;
    hide Skip, ParseItems, ParseMembers, DecodeBody;
  }

  lemma ParseEmptyObject(b: string, rest: string)
    requires Blank(b)
    ensures ParseValue("{" + (b + ("}" + rest))) == Done(Object(NoMember), rest)
  {
    var t := "{" + (b + ("}" + rest));
    assert t[1..] == b + ("}" + rest) && ("}" + rest)[1..] == rest;
    SkipBlank(b, "}" + rest);
    hide ParseItems, ParseMembers, DecodeBody;
  }

  /** One element: the value, then a comma and more elements, or the closing bracket. */
  lemma ParseItem(b: string, text: string, v: Json, c: string, x: string)
    requires Blank(b) && Visible(text) && ParseValue(text) == Done(v, c + x)
    requires Blank(c) && Visible(x)
    ensures StartsWith(x, ']') ==> ParseItems(b + text) == Done(Item(v, NoItem), x[1..])
    ensures StartsWith(x, ',') && ParseItems(x[1..]).Done? ==>
              ParseItems(b + text) == Done(Item(v, ParseItems(x[1..]).value), ParseItems(x[1..]).rest)
  {
    SkipBlank(b, text);
    SkipBlank(c, x);
    hide Skip, ParseValue;
  }

  /** One member: the name, a colon, the value, then a comma and more members, or the closing brace. */
  lemma ParseField(b: string, t: string, name: string, gap: string, b': string, text: string, v: Json, c: string, x: string)
    requires Blank(b) && Visible(t) && ParseText(t) == Done(name, gap + (":" + (b' + text)))
    requires Blank(gap) && Blank(b') && Visible(text) && ParseValue(text) == Done(v, c + x)
    requires Blank(c) && Visible(x)
    ensures StartsWith(x, '}') ==> ParseMembers(b + t) == Done(Member(name, v, NoMember), x[1..])
    ensures StartsWith(x, ',') && ParseMembers(x[1..]).Done? ==>
              ParseMembers(b + t) == Done(Member(name, v, ParseMembers(x[1..]).value), ParseMembers(x[1..]).rest)
  {
    var behind := ":" + (b' + text);
    SkipBlank(b, t);
    SkipBlank(gap, behind);
    assert behind[1..] == b' + text;
    SkipBlank(b', text);
    SkipBlank(c, x);
    hide Skip, ParseValue, ParseText;
  }

  lemma ParseMember(b: string, name: string, b': string, text: string, v: Json, c: string, x: string)
    requires Blank(b) && NulFree(name) && Blank(b') && Visible(text) && ParseValue(text) == Done(v, c + x)
    requires Blank(c) && Visible(x)
    ensures var t := b + (Quoted(name) + (":" + (b' + text)));
            && (StartsWith(x, '}') ==> ParseMembers(t) == Done(Member(name, v, NoMember), x[1..]))
            && (StartsWith(x, ',') && ParseMembers(x[1..]).Done? ==>
                  ParseMembers(t) == Done(Member(name, v, ParseMembers(x[1..]).value), ParseMembers(x[1..]).rest))
  {
    var behind := ":" + (b' + text);
    var t := Quoted(name) + behind;
    ParseQuoted(name, behind);
    assert [] + behind == behind && t[0] == '\"';
    hide ParseMembers, ParseValue, ParseText, Quoted;
    ParseField(b, t, name, [], b', text, v, c, x);
  }

  /** The text of an array's elements followed by `tail`: the first value and what comes behind it. */
  function BehindItem(items: Items, depth: nat, fmt: bool, tail: string): string
    requires items.Item?
  {
    if items.next.NoItem? then tail
    else "," + (Only(fmt, " ") + (PrintItems(items.next, depth, fmt) + tail))
  }

  lemma ItemsSplit(items: Items, depth: nat, fmt: bool, tail: string)
    requires items.Item?
    ensures PrintItems(items, depth, fmt) + tail
         == PrintValue(items.value, depth, fmt) + BehindItem(items, depth, fmt, tail)
  {
    hide PrintValue;
    var text := PrintValue(items.value, depth, fmt);
    if items.next.Item? {
      var more := PrintItems(items.next, depth, fmt);
      Assoc(text, "," + Only(fmt, " ") + more, tail);
      Assoc("," + Only(fmt, " "), more, tail);
      Assoc(",", Only(fmt, " "), more + tail);
    } else {
      Assoc(text, [], tail);
      assert [] + tail == tail;
    }
  }

  /** Likewise for an object's members. */
  function BehindMember(members: Members, depth: nat, fmt: bool, tail: string): string
    requires members.Member?
  {
    if members.next.NoMember? then tail
    else "," + (Only(fmt, "\n") + (PrintMembers(members.next, depth, fmt) + tail))
  }

  lemma MembersSplit(members: Members, depth: nat, fmt: bool, tail: string)
    requires members.Member?
    ensures PrintMembers(members, depth, fmt) + tail
         == Only(fmt, Tabs(depth)) + (Quoted(members.name) + (":" + (Only(fmt, "\t")
            + (PrintValue(members.value, depth, fmt)
               + BehindMember(members, depth, fmt, (if members.next.NoMember? then Only(fmt, "\n") else []) + tail)))))
  {
    hide PrintValue, Tabs, Quoted;
    if members.next.NoMember? {
      MemberSplit(members, depth, fmt, tail);
      assert PrintMembers(members, depth, fmt) == PrintMember(members, depth, fmt);
      assert [] + (Only(fmt, "\n") + tail) == Only(fmt, "\n") + tail;
    } else {
      var more := PrintMembers(members.next, depth, fmt);
      Assoc(PrintMember(members, depth, fmt), more, tail);
      assert [] + tail == tail;
      MemberSplit(members, depth, fmt, more + tail);
    }
  }

  lemma MemberSplit(members: Members, depth: nat, fmt: bool, tail: string)
    requires members.Member?
    ensures PrintMember(members, depth, fmt) + tail
         == Only(fmt, Tabs(depth)) + (Quoted(members.name) + (":" + (Only(fmt, "\t")
            + (PrintValue(members.value, depth, fmt)
               + ((if members.next.NoMember? then [] else ",") + (Only(fmt, "\n") + tail))))))
  {
    hide PrintValue, Tabs, Quoted;
    var a, b, c, d := Only(fmt, Tabs(depth)), Quoted(members.name), ":", Only(fmt, "\t");
    var e, f, g := PrintValue(members.value, depth, fmt), if members.next.NoMember? then [] else ",", Only(fmt, "\n");
    Assoc(a + b + c + d + e + f, g, tail);
    Assoc(a + b + c + d + e, f, g + tail);
    Assoc(a + b + c + d, e, f + (g + tail));
    Assoc(a + b + c, d, e + (f + (g + tail)));
    Assoc(a + b, c, d + (e + (f + (g + tail))));
    Assoc(a, b, c + (d + (e + (f + (g + tail)))));
  }

  /** Parsing undoes printing and stops exactly at the text behind the value. */
  lemma {:induction false} ParsePrintValue(v: Json, depth: nat, fmt: bool, rest: string)
    requires Printable(v) && EndsNumber(rest)
    ensures ParseValue(PrintValue(v, depth, fmt) + rest) == Done(v, rest)
    decreases v, 0
  {
    hide ParseValue, PrintInt, Quoted, PrintItems, PrintMembers, Tabs;
    match v
    case Null => ParseLiterals(rest);
    case False => ParseLiterals(rest);
    case True => ParseLiterals(rest);
    case Number(m, _) => ParseInt(m, rest);
    case Text(s) => ParseQuoted(s, rest);
    case Array(items) =>
      if items.NoItem? {
        ParseEmptyArray([], rest);
        assert "[" + ([] + ("]" + rest)) == "[]" + rest;
      } else {
        ParsePrintItems([], items, depth + 1, fmt, rest);
        PrintedArray(items, depth, fmt, rest);
      }
    case Object(members) =>
      if members.NoMember? {
        PrintedEmptyObject(depth, fmt, rest);
      } else {
        TabsAreBlank(depth);
        ParsePrintMembers(Only(fmt, "\n"), members, depth + 1, fmt, Only(fmt, Tabs(depth)), rest);
        PrintedObject(members, depth, fmt, rest);
      }
  }

  lemma PrintedArray(items: Items, depth: nat, fmt: bool, rest: string)
    requires items.Item?
    requires ParseItems([] + (PrintItems(items, depth + 1, fmt) + ("]" + rest))) == Done(items, rest)
    ensures ParseValue(PrintValue(Array(items), depth, fmt) + rest) == Done(Array(items), rest)
  {
    var inside := PrintItems(items, depth + 1, fmt) + ("]" + rest);
    ItemsSplit(items, depth + 1, fmt, "]" + rest);
    PrintedIsVisible(items.value, depth + 1, fmt);
    assert PrintValue(Array(items), depth, fmt) == "[" + PrintItems(items, depth + 1, fmt) + "]";
    hide PrintItems, PrintValue, ParseItems, ParseValue, BehindItem;
    assert inside[0] == PrintValue(items.value, depth + 1, fmt)[0];
    assert [] + inside == inside;
    ParseArray([], inside, items, rest);
    Assoc("[" + PrintItems(items, depth + 1, fmt), "]", rest);
    Assoc("[", PrintItems(items, depth + 1, fmt), "]" + rest);
  }

  lemma PrintedEmptyObject(depth: nat, fmt: bool, rest: string)
    ensures ParseValue(PrintValue(Object(NoMember), depth, fmt) + rest) == Done(Object(NoMember), rest)
  {
    TabsAreBlank(depth - 1);
    var b := Only(fmt, "\n" + Tabs(depth - 1));
    ParseEmptyObject(b, rest);
    assert PrintValue(Object(NoMember), depth, fmt) == "{" + b + "}";
    hide ParseValue, Tabs;
    Assoc("{" + b, "}", rest);
    Assoc("{", b, "}" + rest);
  }

  lemma {:induction false} ParsePrintItems(b: string, items: Items, depth: nat, fmt: bool, rest: string)
    requires Blank(b) && items.Item? && PrintableItems(items)
    ensures ParseItems(b + (PrintItems(items, depth, fmt) + ("]" + rest))) == Done(items, rest)
    decreases items, 0
  {
    hide ParseValue, PrintValue, PrintItems, ParseItems;
    var text, tail := PrintValue(items.value, depth, fmt), "]" + rest;
    var x := BehindItem(items, depth, fmt, tail);
    if items.next.Item? {
      ParsePrintItems(Only(fmt, " "), items.next, depth, fmt, rest);
      assert x[1..] == Only(fmt, " ") + (PrintItems(items.next, depth, fmt) + tail);
    }
    PrintedIsVisible(items.value, depth, fmt);
    ParsePrintValue(items.value, depth, fmt, x);
    ItemsSplit(items, depth, fmt, tail);
    assert [] + x == x;
    ParseItem(b, text + x, items.value, [], x);
  }

  lemma MembersSkip(b: string, t: string)
    requires Blank(b) && Visible(t)
    ensures ParseMembers(b + t) == ParseMembers(t)
  {
    SkipBlank(b, t);
    SkipBlank([], t);
    assert [] + t == t;
    hide Skip, ParseText, ParseValue;
  }

  lemma ObjectSplit(members: Members, depth: nat, fmt: bool, rest: string)
    requires members.Member?
    ensures PrintValue(Object(members), depth, fmt) + rest
         == "{" + (Only(fmt, "\n") + (PrintMembers(members, depth + 1, fmt) + (Only(fmt, Tabs(depth)) + ("}" + rest))))
  {
    var a, b, c := Only(fmt, "\n"), PrintMembers(members, depth + 1, fmt), Only(fmt, Tabs(depth));
    assert PrintValue(Object(members), depth, fmt) == "{" + a + b + c + "}";
    hide PrintMembers, PrintValue, Tabs, Only;
    Assoc("{" + a + b + c, "}", rest);
    Assoc("{" + a + b, c, "}" + rest);
    Assoc("{" + a, b, c + ("}" + rest));
    Assoc("{", a, b + (c + ("}" + rest)));
  }

  lemma PrintedObject(members: Members, depth: nat, fmt: bool, rest: string)
    requires members.Member?
    requires ParseMembers(Only(fmt, "\n") + (PrintMembers(members, depth + 1, fmt)
                                             + (Only(fmt, Tabs(depth)) + ("}" + rest)))) == Done(members, rest)
    ensures ParseValue(PrintValue(Object(members), depth, fmt) + rest) == Done(Object(members), rest)
  {
    hide PrintMembers, PrintValue, ParseMembers, ParseValue, Tabs;
    var a := Only(fmt, "\n");
    ObjectSplit(members, depth, fmt, rest);
    var indent, core := FirstMember(members, depth + 1, fmt, Only(fmt, Tabs(depth)) + ("}" + rest));
    Assoc(a, indent, core);
    BlankJoin(a, indent);
    MembersSkip(a + indent, core);
    ParseObject(a + indent, core, members, rest);
  }

  /** Appending blanks. */
  lemma BlankJoin(a: string, b: string)
    requires Blank(a) && Blank(b)
    ensures Blank(a + b)
  {
  }

  lemma {:induction false} ParsePrintMembers(b: string, members: Members, depth: nat, fmt: bool, c: string, rest: string)
    requires Blank(b) && Blank(c) && members.Member? && PrintableMembers(members)
    ensures ParseMembers(b + (PrintMembers(members, depth, fmt) + (c + ("}" + rest)))) == Done(members, rest)
    decreases members, 0
  {
    hide ParseValue, PrintValue, PrintMembers, ParseMembers, Tabs, Quoted;
    var tail := c + ("}" + rest);
    var gap := if members.next.NoMember? then Only(fmt, "\n") + c else [];
    var x := if members.next.NoMember? then "}" + rest
             else "," + (Only(fmt, "\n") + (PrintMembers(members.next, depth, fmt) + tail));
    if members.next.Member? {
      ParsePrintMembers(Only(fmt, "\n"), members.next, depth, fmt, c, rest);
      assert x[1..] == Only(fmt, "\n") + (PrintMembers(members.next, depth, fmt) + tail);
    }
    MembersFollowed(members, depth, fmt, c, rest, gap, x);
    TabsAreBlank(depth);
    var indent, text := Only(fmt, Tabs(depth)), PrintValue(members.value, depth, fmt);
    BlankJoin(b, indent);
    BlankJoin(Only(fmt, "\n"), c);
    PrintedIsVisible(members.value, depth, fmt);
    ParsePrintValue(members.value, depth, fmt, gap + x);
    ParseMember(b + indent, members.name, Only(fmt, "\t"), text + (gap + x), members.value, gap, x);
    Assoc(b, indent, Quoted(members.name) + (":" + (Only(fmt, "\t") + (text + (gap + x)))));
  }

  /** The first member's text and what comes behind it, with the blanks in front of a closing brace. */
  lemma MembersFollowed(members: Members, depth: nat, fmt: bool, c: string, rest: string, gap: string, x: string)
    requires members.Member?
    requires gap == if members.next.NoMember? then Only(fmt, "\n") + c else []
    requires x == if members.next.NoMember? then "}" + rest
                  else "," + (Only(fmt, "\n") + (PrintMembers(members.next, depth, fmt) + (c + ("}" + rest))))
    ensures PrintMembers(members, depth, fmt) + (c + ("}" + rest))
         == Only(fmt, Tabs(depth)) + (Quoted(members.name) + (":" + (Only(fmt, "\t")
            + (PrintValue(members.value, depth, fmt) + (gap + x)))))
  {
    MembersSplit(members, depth, fmt, c + ("}" + rest));
    hide PrintMembers, PrintValue, Tabs, Quoted;
    if members.next.NoMember? {
      Assoc(Only(fmt, "\n"), c, "}" + rest);
    } else {
      assert [] + (c + ("}" + rest)) == c + ("}" + rest);
      assert [] + x == x;
    }
  }

  /** The members' text opens with its indentation and a quote. */
  lemma FirstMember(members: Members, depth: nat, fmt: bool, tail: string) returns (indent: string, core: string)
    requires members.Member?
    ensures PrintMembers(members, depth, fmt) + tail == indent + core
    ensures Blank(indent) && Visible(core) && core[0] != '}'
  {
    MembersSplit(members, depth, fmt, tail);
    TabsAreBlank(depth);
    hide PrintMembers, PrintValue, Tabs, Escape;
    indent := Only(fmt, Tabs(depth));
    core := Quoted(members.name) + (":" + (Only(fmt, "\t") + (PrintValue(members.value, depth, fmt)
            + BehindMember(members, depth, fmt, (if members.next.NoMember? then Only(fmt, "\n") else []) + tail))));
    assert core[0] == '\"';
  }
}
