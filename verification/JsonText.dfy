/**
 JSON trees, the text print_value gives them, and the language parse_value accepts
 (cJSON/cJSON.c).  The children of an array or object are chained like the `child`/`next` links.
 */
module JsonText {
  import opened Common
  import opened Ascii
  import opened JsonString
  import opened JsonStringCode

  /** A number stands for mantissa * 10^exponent. */
  datatype Json =
    | Null
    | False
    | True
    | Number(mantissa: int, exponent: int)
    | Text(text: string)
    | Array(items: Items)
    | Object(members: Members)

  datatype Items = NoItem | Item(value: Json, next: Items)

  datatype Members = NoMember | Member(name: string, value: Json, next: Members)

  /** Trees of null, booleans, 32-bit integers, NUL-free strings, arrays and objects. */
  ghost predicate Printable(v: Json) {
    match v
    case Number(m, e) => IsInt32(m) && e == 0
    case Text(s) => NulFree(s)
    case Array(items) => PrintableItems(items)
    case Object(members) => PrintableMembers(members)
    case _ => true
  }

  ghost predicate PrintableItems(items: Items) {
    items.Item? ==> Printable(items.value) && PrintableItems(items.next)
  }

  ghost predicate PrintableMembers(members: Members) {
    members.Member? ==> NulFree(members.name) && Printable(members.value) && PrintableMembers(members.next)
  }

  // ---- Printing ----

  function Digit(d: nat): char
    requires d < 10
  {
    ('0' as int + d) as char
  }

  function Decimal(n: nat): string {
    if n < 10 then [Digit(n)] else Decimal(n / 10) + [Digit(n % 10)]
  }

  /** `%d` */
  function PrintInt(n: int): string {
    if n < 0 then "-" + Decimal(-n) else Decimal(n)
  }

  function Tabs(n: int): string {
    if n <= 0 then [] else "\t" + Tabs(n - 1)
  }

  /** Text that only the tabbed layout has. */
  function Only(fmt: bool, s: string): string { if fmt then s else [] }

  function PrintValue(v: Json, depth: nat, fmt: bool): string
    decreases v
  {
    match v
    case Null => "null"
    case False => "false"
    case True => "true"
    case Number(m, _) => PrintInt(m)
    case Text(s) => Quoted(s)
    case Array(items) => if items.NoItem? then "[]" else "[" + PrintItems(items, depth + 1, fmt) + "]"
    case Object(members) =>
      if members.NoMember? then "{" + Only(fmt, "\n" + Tabs(depth - 1)) + "}"
      else "{" + Only(fmt, "\n") + PrintMembers(members, depth + 1, fmt) + Only(fmt, Tabs(depth)) + "}"
  }

  function PrintItems(items: Items, depth: nat, fmt: bool): string
    decreases items
  {
    if items.NoItem? then []
    else PrintValue(items.value, depth, fmt)
         + (if items.next.NoItem? then [] else "," + Only(fmt, " ") + PrintItems(items.next, depth, fmt))
  }

  function PrintMembers(members: Members, depth: nat, fmt: bool): string
    decreases members
  {
    if members.NoMember? then []
    else PrintMember(members, depth, fmt) + PrintMembers(members.next, depth, fmt)
  }

  function PrintMember(members: Members, depth: nat, fmt: bool): string
    requires members.Member?
    decreases members, 0
  {
    Only(fmt, Tabs(depth)) + Quoted(members.name) + ":" + Only(fmt, "\t") + PrintValue(members.value, depth, fmt)
    + (if members.next.NoMember? then [] else ",") + Only(fmt, "\n")
  }

  // ---- Parsing ----

  /** `skip` */
  function Skip(t: string): (r: string)
    ensures |r| <= |t|
  {
    if t != [] && t[0] as int <= 32 then Skip(t[1..]) else t
  }

  /** The blanks of RFC 8259. */
  predicate IsSpace(c: char) { c == ' ' || c == '\t' || c == '\r' || c == '\n' }

  /** Section 2 of RFC 8259, by code. */
  lemma SpaceMeans(c: char)
    ensures IsSpace(c) <==> c as int in {0x20, 0x09, 0x0A, 0x0D}
  {
  }

  predicate Spaces(b: string) { forall k | 0 <= k < |b| :: IsSpace(b[k]) }

  predicate StartsWith(t: string, c: char) { t != [] && t[0] == c }

  predicate StartsWithDigit(t: string) { t != [] && IsDigit(t[0]) }

  /** A number read off the front of a text. */
  datatype Read = Read(value: int, rest: string)

  /** The digit loops of parse_number: one more decimal place per digit. */
  function TakeDigits(acc: int, t: string): (r: Read)
    ensures |r.rest| <= |t|
    decreases |t|
  {
    if StartsWithDigit(t) then TakeDigits(acc * 10 + (t[0] as int - '0' as int), t[1..]) else Read(acc, t)
  }

  /** A leading 0 is skipped, after which only 1 to 9 begin the digits. */
  function TakeWhole(t: string): (r: Read)
    ensures |r.rest| <= |t|
  {
    var t' := if StartsWith(t, '0') then t[1..] else t;
    if StartsWithDigit(t') && t'[0] != '0' then TakeDigits(0, t') else Read(0, t')
  }

  /** The digits behind a point, appended to those in front of it. */
  function TakeFraction(whole: int, t: string): (r: Read)
    ensures |r.rest| <= |t|
  {
    if StartsWith(t, '.') && StartsWithDigit(t[1..]) then TakeDigits(whole, t[1..]) else Read(whole, t)
  }

  function TakeExponent(t: string): (r: Read)
    ensures |r.rest| <= |t|
  {
    if StartsWith(t, 'e') || StartsWith(t, 'E') then
      if StartsWith(t[1..], '+') then TakeDigits(0, t[2..])
      else if StartsWith(t[1..], '-') then var r := TakeDigits(0, t[2..]); Read(-r.value, r.rest)
      else TakeDigits(0, t[1..])
    else Read(0, t)
  }

  /** `parse_number`: sign, digits, fraction and exponent, any of which may be missing. */
  function ParseNumber(t: string): (r: Parsed<Json>)
    ensures r.Done? && r.value.Number? && |r.rest| <= |t|
  {
    var whole := TakeWhole(if StartsWith(t, '-') then t[1..] else t);
    var frac := TakeFraction(whole.value, whole.rest);
    var exp := TakeExponent(frac.rest);
    var scale := if frac == whole then 0 else |frac.rest| + 1 - |whole.rest|;
    Done(Number(if StartsWith(t, '-') then -frac.value else frac.value, scale + exp.value), exp.rest)
  }

  /** `parse_value` */
  function ParseValue(t: string): (r: Parsed<Json>)
    ensures r.Done? ==> |r.rest| < |t|
    decreases |t|, 1
  {
    if "null" <= t then Done(Null, t[4..])
    else if "false" <= t then Done(False, t[5..])
    else if "true" <= t then Done(True, t[4..])
    else if StartsWith(t, '\"') then
      DecodeBodyShrinks(t[1..]);
      var s := DecodeBody(t[1..]);
      if s.Done? then Done(Text(s.value), s.rest) else if s.Fail? then Fail else Overrun
    else if StartsWith(t, '-') || StartsWithDigit(t) then
      NumberShrinks(t);
      ParseNumber(t)
    else if StartsWith(t, '[') then
      var t1 := Skip(t[1..]);
      if StartsWith(t1, ']') then Done(Array(NoItem), t1[1..])
      else
        var items := ParseItems(t1);
        if items.Done? then Done(Array(items.value), items.rest) else if items.Fail? then Fail else Overrun
    else if StartsWith(t, '{') then
      var t1 := Skip(t[1..]);
      if StartsWith(t1, '}') then Done(Object(NoMember), t1[1..])
      else
        var members := ParseMembers(t1);
        if members.Done? then Done(Object(members.value), members.rest) else if members.Fail? then Fail else Overrun
    else Fail
  }

  /** The elements of an array up to and including the closing bracket. */
  function ParseItems(t: string): (r: Parsed<Items>)
    ensures r.Done? ==> |r.rest| < |t|
    decreases |t|, 2
  {
    match ParseValue(Skip(t))
    case Fail => Fail
    case Overrun => Overrun
    case Done(v, rest) =>
      var t1 := Skip(rest);
      if StartsWith(t1, ',') then
        var more := ParseItems(t1[1..]);
        if more.Done? then Done(Item(v, more.value), more.rest) else more
      else if StartsWith(t1, ']') then Done(Item(v, NoItem), t1[1..])
      else Fail
  }

  /** The members of an object up to and including the closing brace. */
  function ParseMembers(t: string): (r: Parsed<Members>)
    ensures r.Done? ==> |r.rest| < |t|
    decreases |t|, 2
  {
    TextShrinks(Skip(t));
    match ParseText(Skip(t))
    case Fail => Fail
    case Overrun => Overrun
    case Done(name, rest) =>
      var t1 := Skip(rest);
      if !StartsWith(t1, ':') then Fail
      else match ParseValue(Skip(t1[1..]))
        case Fail => Fail
        case Overrun => Overrun
        case Done(v, rest') =>
          var t2 := Skip(rest');
          if StartsWith(t2, ',') then
            var more := ParseMembers(t2[1..]);
            if more.Done? then Done(Member(name, v, more.value), more.rest) else more
          else if StartsWith(t2, '}') then Done(Member(name, v, NoMember), t2[1..])
          else Fail
  }

  lemma {:induction false} DecodeBodyShrinks(t: string)
    ensures DecodeBody(t).Done? ==> |DecodeBody(t).rest| <= |t|
    decreases |t|
  {
    if t != [] && t[0] == '\\' {
      if DecodeEscape(t).Done? { DecodeBodyShrinks(DecodeEscape(t).rest); }
    } else if t != [] && t[0] != '\"' {
      DecodeBodyShrinks(t[1..]);
    }
  }

  lemma TextShrinks(t: string)
    ensures ParseText(t).Done? ==> |ParseText(t).rest| < |t|
  {
    if t != [] { DecodeBodyShrinks(t[1..]); }
  }

  lemma NumberShrinks(t: string)
    requires StartsWith(t, '-') || StartsWithDigit(t)
    ensures |ParseNumber(t).rest| < |t|
  {
    assert |(if StartsWith(t, '-') then TakeWhole(t[1..]) else TakeWhole(t)).rest| < |t|;
  }
}
