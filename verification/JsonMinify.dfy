/**
 cJSON_Minify (cJSON/cJSON.c): its meaning on texts, the in-place loop, and its relation to the
 two print layouts.
 */
module JsonMinify {
  import opened Common
  import opened JsonString
  import opened JsonText
  import opened JsonRoundTrip

  /** `Overruns`: a comment or literal is never closed, and the source leaves the buffer. */
  datatype Squeezed = Overruns | Squeezed(text: string)

  /** Length of a literal behind its opening quote, including the closing one; 0 if it is not closed. */
  function LiteralLength(t: string): (n: nat)
    ensures n <= |t|
  {
    if t == [] then 0
    else if t[0] == '\"' then 1
    else
      var step := if t[0] == '\\' then 2 else 1;
      if |t| < step then 0
      else var n := LiteralLength(t[step..]); if n == 0 then 0 else n + step
  }

  /** Length up to and including the first `*` `/`; 0 if there is none. */
  function CommentLength(t: string): (n: nat)
    ensures n <= |t|
  {
    if |t| < 2 then 0
    else if t[0] == '*' && t[1] == '/' then 2
    else var n := CommentLength(t[1..]); if n == 0 then 0 else n + 1
  }

  /** Length up to, not including, the first newline. */
  function LineLength(t: string): (n: nat)
    ensures n <= |t|
  {
    if t == [] || t[0] == '\n' then 0 else 1 + LineLength(t[1..])
  }

  function Keep(s: string, m: Squeezed): Squeezed {
    if m.Squeezed? then Squeezed(s + m.text) else m
  }

  function Minified(t: string): Squeezed
    decreases |t|
  {
    if t == [] then Squeezed([])
    else if IsSpace(t[0]) then Minified(t[1..])
    else if "//" <= t then Minified(t[2 + LineLength(t[2..])..])
    else if "/*" <= t then
      (if CommentLength(t) == 0 then Overruns else Minified(t[CommentLength(t)..]))
    else if t[0] == '\"' then
      var n := LiteralLength(t[1..]);
      if n == 0 then Overruns else Keep(t[..n + 1], Minified(t[n + 1..]))
    else Keep([t[0]], Minified(t[1..]))
  }

  // ---- Minifying either layout gives the compact one ----

  lemma KeepTwice(a: string, b: string, m: Squeezed)
    ensures Keep(a, Keep(b, m)) == Keep(a + b, m)
  {
    if m.Squeezed? {
      Assoc(a, b, m.text);
    }
  }

  lemma MinifyChar(c: char, rest: string)
    requires c != '/' && c != '\"'
    ensures Minified([c] + rest) == if IsSpace(c) then Minified(rest) else Keep([c], Minified(rest))
  {
    assert ([c] + rest)[1..] == rest;
  }

  /** Characters that are neither blank nor begin a comment or literal. */
  ghost predicate Plain(s: string) {
    forall k | 0 <= k < |s| :: s[k] != '/' && s[k] != '\"' && !IsSpace(s[k])
  }

  lemma {:induction false} MinifyPlain(s: string, rest: string)
    requires Plain(s)
    ensures Minified(s + rest) == Keep(s, Minified(rest))
  {
    hide Minified;
    if s == [] {
      assert s + rest == rest;
      if Minified(rest).Squeezed? { assert [] + Minified(rest).text == Minified(rest).text; }
    } else {
      MinifyChar(s[0], s[1..] + rest);
      MinifyPlain(s[1..], rest);
      KeepTwice([s[0]], s[1..], Minified(rest));
      assert [s[0]] + s[1..] == s;
      Assoc([s[0]], s[1..], rest);
    }
  }

  lemma {:induction false} MinifySpaces(s: string, rest: string)
    requires Spaces(s)
    ensures Minified(s + rest) == Minified(rest)
  {
    hide Minified;
    if s == [] {
      assert s + rest == rest;
    } else {
      MinifyChar(s[0], s[1..] + rest);
      MinifySpaces(s[1..], rest);
      assert [s[0]] + s[1..] == s;
      Assoc([s[0]], s[1..], rest);
    }
  }

  lemma {:induction false} TabsAreSpaces(n: int)
    ensures Spaces(Tabs(n))
  {
    if n > 0 {
      TabsAreSpaces(n - 1);
    }
  }

  lemma LiteralChar(c: char, rest: string)
    requires LiteralLength(rest) > 0
    ensures LiteralLength(EscapeChar(c, true) + rest) == |EscapeChar(c, true)| + LiteralLength(rest)
  {
    var e := EscapeChar(c, true);
    if e == [c] {
      assert (e + rest)[1..] == rest;
    } else if |e| == 2 {
      assert (e + rest)[2..] == rest;
    } else {
      var h := HexDigits(c as int % 0x10000);
      assert e + rest == "\\u" + (h + rest) && (e + rest)[2..] == h + rest;
      LiteralHex(h, rest);
    }
  }

  lemma LiteralHex(h: string, rest: string)
    requires |h| == 4 && forall k | 0 <= k < 4 :: h[k] != '\"' && h[k] != '\\'
    requires LiteralLength(rest) > 0
    ensures LiteralLength(h + rest) == 4 + LiteralLength(rest)
  {
    var t := h + rest;
    assert t[1..][1..] == t[2..] && t[2..][1..] == t[3..] && t[3..][1..] == rest;
    assert forall k | 0 <= k < 4 :: t[k] == h[k];
    assert LiteralLength(t[3..]) == 1 + LiteralLength(rest);
    assert LiteralLength(t[2..]) == 2 + LiteralLength(rest);
    assert LiteralLength(t[1..]) == 3 + LiteralLength(rest);
  }

  lemma {:induction false} LiteralOfEscape(s: string, rest: string)
    ensures LiteralLength(Escape(s, true) + ("\"" + rest)) == |Escape(s, true)| + 1
  {
    hide LiteralLength, EscapeChar;
    if s == [] {
      assert Escape(s, true) + ("\"" + rest) == "\"" + rest;
      LiteralQuote(rest);
    } else {
      LiteralOfEscape(s[1..], rest);
      LiteralChar(s[0], Escape(s[1..], true) + ("\"" + rest));
      EscapeSplit(s, "\"" + rest);
    }
  }

  lemma LiteralQuote(rest: string)
    ensures LiteralLength("\"" + rest) == 1
  {
  }

  lemma MinifiedAtQuote(t: string)
    requires t != [] && t[0] == '\"'
    ensures var n := LiteralLength(t[1..]);
            Minified(t) == if n == 0 then Overruns else Keep(t[..n + 1], Minified(t[n + 1..]))
  {
    assert !IsSpace(t[0]);
    assert "//"[0] != t[0] && "/*"[0] != t[0];
    assert !("//" <= t) && !("/*" <= t);
    hide IsSpace, LineLength, CommentLength, LiteralLength, Keep;
  }

  /** The minifier leaves a literal as it is. */
  lemma MinifyLiteral(inside: string, rest: string)
    requires LiteralLength(inside + ("\"" + rest)) == |inside| + 1
    ensures Minified("\"" + inside + "\"" + rest) == Keep("\"" + inside + "\"", Minified(rest))
  {
    var t, n := "\"" + inside + "\"" + rest, |inside| + 1;
    hide LiteralLength, Minified;
    assert t[1..] == inside + ("\"" + rest);
    MinifiedAtQuote(t);
    assert t[..n + 1] == "\"" + inside + "\"" && t[n + 1..] == rest;
  }

  lemma MinifyQuoted(s: string, rest: string)
    ensures Minified(Quoted(s) + rest) == Keep(Quoted(s), Minified(rest))
  {
    LiteralOfEscape(s, rest);
    hide Escape, LiteralLength, Minified;
    MinifyLiteral(Escape(s, true), rest);
  }

  /** Whatever follows, minifying turns the text `a` into `b`. */
  ghost predicate Squeezes(a: string, b: string) {
    forall rest :: Minified(a + rest) == Keep(b, Minified(rest))
  }

  lemma Join(a: string, b: string, a': string, b': string)
    requires Squeezes(a, b) && Squeezes(a', b')
    ensures Squeezes(a + a', b + b')
  {
    hide Minified, Keep;
    forall rest
      ensures Minified(a + a' + rest) == Keep(b + b', Minified(rest))
    {
      Assoc(a, a', rest);
      KeepTwice(b, b', Minified(rest));
    }
  }

  lemma SqueezePlain(s: string)
    requires Plain(s)
    ensures Squeezes(s, s)
  {
    forall rest ensures Minified(s + rest) == Keep(s, Minified(rest)) { MinifyPlain(s, rest); }
  }

  lemma SqueezeNothing()
    ensures Squeezes([], [])
  {
    SqueezePlain([]);
  }

  lemma SqueezeWords()
    ensures Squeezes("null", "null") && Squeezes("false", "false") && Squeezes("true", "true")
  {
    hide Squeezes;
    SqueezePlain("null");
    SqueezePlain("false");
    SqueezePlain("true");
  }

  lemma SqueezeSpaces(s: string)
    requires Spaces(s)
    ensures Squeezes(s, [])
  {
    hide Minified;
    forall rest
      ensures Minified(s + rest) == Keep([], Minified(rest))
    {
      MinifySpaces(s, rest);
      MinifyPlain([], rest);
      assert [] + rest == rest;
    }
  }

  lemma SqueezeOnly(fmt: bool, s: string)
    requires Spaces(s)
    ensures Squeezes(Only(fmt, s), Only(false, s))
  {
    SqueezeSpaces(Only(fmt, s));
  }

  lemma SqueezeQuoted(s: string)
    ensures Squeezes(Quoted(s), Quoted(s))
  {
    hide Minified, Quoted;
    forall rest ensures Minified(Quoted(s) + rest) == Keep(Quoted(s), Minified(rest)) { MinifyQuoted(s, rest); }
  }

  lemma SqueezeInt(n: int)
    ensures Squeezes(PrintInt(n), PrintInt(n))
  {
    DecimalDigits(if n < 0 then -n else n);
    SqueezePlain(PrintInt(n));
  }

  /** Minifying what either layout prints, at any depth, leaves the compact print. */
  lemma {:induction false} SqueezeValue(v: Json, depth: nat, fmt: bool, depth': nat)
    ensures Squeezes(PrintValue(v, depth, fmt), PrintValue(v, depth', false))
    decreases v, 0
  {
    hide Squeezes, PrintInt, Quoted, PrintItems, PrintMembers, Tabs;
    match v
    case Null => SqueezePlain("null");
    case False => SqueezePlain("false");
    case True => SqueezePlain("true");
    case Number(m, _) => SqueezeInt(m);
    case Text(s) => SqueezeQuoted(s);
    case Array(items) =>
      if items.NoItem? {
        SqueezePlain("[]");
      } else {
        var a, b := PrintItems(items, depth + 1, fmt), PrintItems(items, depth' + 1, false);
        SqueezePlain("[");
        SqueezeItems(items, depth + 1, fmt, depth' + 1);
        SqueezePlain("]");
        Join("[", "[", a, b);
        Join("[" + a, "[" + b, "]", "]");
      }
    case Object(members) =>
      SqueezePlain("{");
      SqueezePlain("}");
      if members.NoMember? {
        SqueezeEmptyIndent(depth, fmt, depth');
        var a, b := Only(fmt, "\n" + Tabs(depth - 1)), Only(false, "\n" + Tabs(depth' - 1));
        Join("{", "{", a, b);
        Join("{" + a, "{" + b, "}", "}");
      } else {
        SqueezeMembers(members, depth + 1, fmt, depth' + 1);
        SqueezeBraces(members, depth, fmt, depth');
      }
  }

  lemma SqueezeEmptyIndent(depth: nat, fmt: bool, depth': nat)
    ensures Squeezes(Only(fmt, "\n" + Tabs(depth - 1)), Only(false, "\n" + Tabs(depth' - 1)))
  {
    TabsAreSpaces(depth - 1);
    SqueezeOnly(fmt, "\n" + Tabs(depth - 1));
  }

  lemma SqueezeIndent(depth: nat, fmt: bool, depth': nat)
    ensures Squeezes(Only(fmt, Tabs(depth)), Only(false, Tabs(depth')))
  {
    TabsAreSpaces(depth);
    SqueezeOnly(fmt, Tabs(depth));
  }

  lemma SqueezeBraces(members: Members, depth: nat, fmt: bool, depth': nat)
    requires members.Member?
    requires Squeezes(PrintMembers(members, depth + 1, fmt), PrintMembers(members, depth' + 1, false))
    ensures Squeezes(PrintValue(Object(members), depth, fmt), PrintValue(Object(members), depth', false))
  {
    hide Squeezes, PrintMembers, Tabs;
    var a, a' := Only(fmt, "\n"), Only(false, "\n");
    var b, b' := PrintMembers(members, depth + 1, fmt), PrintMembers(members, depth' + 1, false);
    var c, c' := Only(fmt, Tabs(depth)), Only(false, Tabs(depth'));
    SqueezePlain("{");
    SqueezePlain("}");
    SqueezeOnly(fmt, "\n");
    SqueezeIndent(depth, fmt, depth');
    hide Only;
    Join("{", "{", a, a');
    Join("{" + a, "{" + a', b, b');
    Join("{" + a + b, "{" + a' + b', c, c');
    Join("{" + a + b + c, "{" + a' + b' + c', "}", "}");
  }

  lemma {:induction false} SqueezeItems(items: Items, depth: nat, fmt: bool, depth': nat)
    ensures Squeezes(PrintItems(items, depth, fmt), PrintItems(items, depth', false))
    decreases items, 0
  {
    hide Squeezes, PrintValue;
    if items.NoItem? {
      SqueezePlain([]);
    } else {
      var a, b := PrintValue(items.value, depth, fmt), PrintValue(items.value, depth', false);
      SqueezeValue(items.value, depth, fmt, depth');
      if items.next.NoItem? {
        SqueezePlain([]);
        Join(a, b, [], []);
      } else {
        hide PrintItems, Only;
        SqueezePlain(",");
        SqueezeOnly(fmt, " ");
        SqueezeItems(items.next, depth, fmt, depth');
        var blank, blank' := Only(fmt, " "), Only(false, " ");
        var more, more' := PrintItems(items.next, depth, fmt), PrintItems(items.next, depth', false);
        Join(",", ",", blank, blank');
        Join("," + blank, "," + blank', more, more');
        Join(a, b, "," + blank + more, "," + blank' + more');
        ItemsAre(items, depth, fmt);
        ItemsAre(items, depth', false);
      }
    }
  }

  lemma ItemsAre(items: Items, depth: nat, fmt: bool)
    requires items.Item? && items.next.Item?
    ensures PrintItems(items, depth, fmt)
         == PrintValue(items.value, depth, fmt) + ("," + Only(fmt, " ") + PrintItems(items.next, depth, fmt))
  {
  }

  lemma {:induction false} SqueezeMembers(members: Members, depth: nat, fmt: bool, depth': nat)
    ensures Squeezes(PrintMembers(members, depth, fmt), PrintMembers(members, depth', false))
    decreases members, 0
  {
    hide Squeezes, PrintValue;
    if members.NoMember? {
      SqueezePlain([]);
    } else {
      SqueezeValue(members.value, depth, fmt, depth');
      SqueezeMember(members, depth, fmt, depth');
      SqueezeMembers(members.next, depth, fmt, depth');
      Join(PrintMember(members, depth, fmt), PrintMember(members, depth', false),
           PrintMembers(members.next, depth, fmt), PrintMembers(members.next, depth', false));
    }
  }

  lemma SqueezeMember(members: Members, depth: nat, fmt: bool, depth': nat)
    requires members.Member?
    requires Squeezes(PrintValue(members.value, depth, fmt), PrintValue(members.value, depth', false))
    ensures Squeezes(PrintMember(members, depth, fmt), PrintMember(members, depth', false))
  {
    var a, a' := Only(fmt, Tabs(depth)), Only(false, Tabs(depth'));
    var q, d, d' := Quoted(members.name), Only(fmt, "\t"), Only(false, "\t");
    var e, e' := PrintValue(members.value, depth, fmt), PrintValue(members.value, depth', false);
    var f, g, g' := if members.next.NoMember? then [] else ",", Only(fmt, "\n"), Only(false, "\n");
    hide Squeezes, PrintValue, Tabs, Quoted, Only;
    SqueezeIndent(depth, fmt, depth');
    SqueezeQuoted(members.name);
    SqueezePlain(":");
    SqueezeOnly(fmt, "\t");
    SqueezePlain(f);
    SqueezeOnly(fmt, "\n");
    Join(a, a', q, q);
    Join(a + q, a' + q, ":", ":");
    Join(a + q + ":", a' + q + ":", d, d');
    Join(a + q + ":" + d, a' + q + ":" + d', e, e');
    Join(a + q + ":" + d + e, a' + q + ":" + d' + e', f, f);
    Join(a + q + ":" + d + e + f, a' + q + ":" + d' + e' + f, g, g');
  }

  /** Minifying the tabbed print of any tree gives its compact print, byte for byte; the compact
      print is left as it is. */
  lemma MinifyIsCompact(v: Json, fmt: bool)
    ensures Minified(PrintValue(v, 0, fmt)) == Squeezed(PrintValue(v, 0, false))
  {
    SqueezeValue(v, 0, fmt, 0);
    var t, c := PrintValue(v, 0, fmt), PrintValue(v, 0, false);
    assert Minified(t + []) == Keep(c, Minified([]));
    assert t + [] == t && c + [] == c;
  }

  /** Hence minified text still parses to the tree that was printed. */
  lemma ParseMinified(v: Json, fmt: bool)
    requires Printable(v)
    ensures Minified(PrintValue(v, 0, fmt)).Squeezed?
    ensures ParseValue(Minified(PrintValue(v, 0, fmt)).text) == Done(v, [])
  {
    MinifyIsCompact(v, fmt);
    ParsePrintValue(v, 0, false, []);
    assert PrintValue(v, 0, false) + [] == PrintValue(v, 0, false);
  }

  // ---- Comments ----

  lemma {:induction false} LineLengthOf(line: string, rest: string)
    requires '\n' !in line && (rest == [] || rest[0] == '\n')
    ensures LineLength(line + rest) == |line|
  {
    if line == [] {
      assert line + rest == rest;
    } else {
      assert (line + rest)[1..] == line[1..] + rest && (line + rest)[0] == line[0];
      assert line[0] in line;
      LineLengthOf(line[1..], rest);
    }
  }

  /** A line comment up to the end of its line or of the text is dropped. */
  lemma LineCommentIsDropped(line: string, rest: string)
    requires '\n' !in line && (rest == [] || rest[0] == '\n')
    ensures Minified("//" + line + rest) == Minified(rest)
  {
    var t := "//" + line + rest;
    assert t[2..] == line + rest && t[2 + |line|..] == rest;
    LineLengthOf(line, rest);
    hide LineLength, CommentLength, LiteralLength, Keep;
    assert "//" <= t && t[0] == '/' && !IsSpace(t[0]);
  }

  /** The mark `*` `/` stands nowhere in front of the end of `t`. */
  ghost predicate EndsFirst(t: string) {
    forall k | 0 <= k < |t| - 2 :: !(t[k] == '*' && t[k + 1] == '/')
  }

  lemma LaterEndsFirst(t: string)
    requires |t| > 2 && EndsFirst(t)
    ensures EndsFirst(t[1..])
  {
    forall k | 0 <= k < |t[1..]| - 2
      ensures !(t[1..][k] == '*' && t[1..][k + 1] == '/')
    {
      assert t[1..][k] == t[k + 1] && t[1..][k + 1] == t[k + 1 + 1];
    }
  }

  lemma {:induction false} CommentLengthOf(t: string, rest: string)
    requires |t| >= 2 && t[|t| - 2] == '*' && t[|t| - 1] == '/' && EndsFirst(t)
    ensures CommentLength(t + rest) == |t|
  {
    if |t| > 2 {
      assert (t + rest)[1..] == t[1..] + rest;
      assert !(t[0] == '*' && t[1] == '/');
      LaterEndsFirst(t);
      CommentLengthOf(t[1..], rest);
    }
  }

  /** A block comment up to its first end mark is dropped; the star that opens it may close it too. */
  lemma BlockCommentIsDropped(comment: string, rest: string)
    requires "/*" <= comment && |comment| > 2
    requires comment[|comment| - 2] == '*' && comment[|comment| - 1] == '/' && EndsFirst(comment)
    ensures Minified(comment + rest) == Minified(rest)
  {
    var t := comment + rest;
    CommentLengthOf(comment, rest);
    assert t[|comment|..] == rest && "/*" <= t;
    hide LineLength, CommentLength, LiteralLength, Keep;
    assert t[0] == '/' && t[1] == '*' && !("//" <= t) && !IsSpace(t[0]);
  }

  // ---- The in-place loop ----

  /** `text` is what is left to read: the bytes from `json` up to the terminating NUL at `n`. */
  ghost predicate Unread(a: array<char>, json: nat, n: nat, text: string)
    reads a
  {
    json <= n < a.Length && a[n] == '\0' && '\0' !in text && a[json..n] == text
  }

  /** `*into++ = *json++`, the write cursor not in front of the read cursor. */
  method CopyByte(a: array<char>, json: nat, into: nat, ghost n: nat, ghost text: string)
    requires into <= json && Unread(a, json, n, text) && text != []
    modifies a
    ensures a[..into + 1] == old(a[..into]) + text[..1]
    ensures Unread(a, json + 1, n, text[1..])
    ensures forall j | n < j < a.Length :: a[j] == old(a[j])
  {
    assert a[json] == text[0];
    assert a[json + 1..n] == text[1..];
    a[into] := a[json];
  }

  /** The same with the copied and the unread part of one literal told apart. */
  method CopyNext(a: array<char>, json: nat, into: nat, ghost n: nat,
                  ghost before: string, ghost copied: string, ghost rest: string)
    requires into <= json && Unread(a, json, n, rest) && rest != [] && a[..into] == before + copied
    modifies a
    ensures a[..into + 1] == before + (copied + rest[..1])
    ensures copied + rest == copied + rest[..1] + rest[1..]
    ensures Unread(a, json + 1, n, rest[1..])
    ensures forall j | n < j < a.Length :: a[j] == old(a[j])
  {
    CopyByte(a, json, into, n, rest);
    Assoc(before, copied, rest[..1]);
    Assoc(copied, rest[..1], rest[1..]);
    assert rest == rest[..1] + rest[1..];
  }

  lemma LiteralStep(t: string)
    requires LiteralLength(t) > 0
    ensures t != []
    ensures t[0] == '\"' ==> LiteralLength(t) == 1
    ensures t[0] == '\\' ==> |t| >= 2 && LiteralLength(t[1..][1..]) > 0 && LiteralLength(t) == 2 + LiteralLength(t[1..][1..])
    ensures t[0] != '\"' && t[0] != '\\' ==> LiteralLength(t[1..]) > 0 && LiteralLength(t) == 1 + LiteralLength(t[1..])
  {
    if |t| >= 2 { assert t[1..][1..] == t[2..]; }
  }

  /** One turn of the literal's loop: a character, or a backslash and the character behind it. */
  method CopyUnit(a: array<char>, json: nat, into: nat, ghost n: nat,
                  ghost before: string, ghost copied: string, ghost rest: string)
    returns (json': nat, into': nat, ghost copied': string, ghost rest': string)
    requires into <= json && Unread(a, json, n, rest) && a[..into] == before + copied
    requires LiteralLength(rest) > 0 && rest[0] != '\"'
    modifies a
    ensures json < json' <= n && into' - into == json' - json == |copied'| - |copied|
    ensures a[..into'] == before + copied' && copied' + rest' == copied + rest
    ensures Unread(a, json', n, rest') && LiteralLength(rest') > 0
    ensures |copied'| + LiteralLength(rest') == |copied| + LiteralLength(rest)
    ensures forall j | n < j < a.Length :: a[j] == old(a[j])
  {
    LiteralStep(rest);
    hide LiteralLength;
    json', into', copied', rest' := json, into, copied, rest;
    assert rest[0] == a[json'];
    if a[json'] == '\\' {
      CopyNext(a, json', into', n, before, copied', rest');
      copied', rest' := copied' + rest'[..1], rest'[1..];
      json', into' := json' + 1, into' + 1;
    }
    CopyNext(a, json', into', n, before, copied', rest');
    copied', rest' := copied' + rest'[..1], rest'[1..];
    json', into' := json' + 1, into' + 1;
  }

  /** Copying a literal, the opening quote first. */
  method CopyLiteral(a: array<char>, json: nat, into: nat, ghost n: nat, ghost text: string) returns (json': nat, into': nat)
    requires into <= json && Unread(a, json, n, text)
    requires text != [] && text[0] == '\"' && LiteralLength(text[1..]) > 0
    modifies a
    ensures json' == json + 1 + LiteralLength(text[1..]) <= n && into' - into == json' - json
    ensures a[..into'] == old(a[..into]) + text[..json' - json]
    ensures Unread(a, json', n, text[json' - json..])
    ensures forall j | n < j < a.Length :: a[j] == old(a[j])
  {
    hide LiteralLength;
    ghost var copied, rest, total := text[..1], text[1..], 1 + LiteralLength(text[1..]);
    ghost var before := a[..into];
    CopyByte(a, json, into, n, text);
    json', into' := json + 1, into + 1;
    while a[json'] != '\0' && a[json'] != '\"'
      invariant json < json' <= n && into' - into == json' - json == |copied|
      invariant text == copied + rest && Unread(a, json', n, rest)
      invariant LiteralLength(rest) > 0 && |copied| + LiteralLength(rest) == total
      invariant a[..into'] == before + copied
      invariant forall j | n < j < a.Length :: a[j] == old(a[j])
      decreases n - json'
    {
      LiteralStep(rest);
      assert rest[0] == a[json'];
      json', into', copied, rest := CopyUnit(a, json', into', n, before, copied, rest);
    }
    LiteralStep(rest);
    assert rest[0] == a[json'];
    CopyNext(a, json', into', n, before, copied, rest);
    copied, rest := copied + rest[..1], rest[1..];
    json', into' := json' + 1, into' + 1;
    assert copied == text[..total] && rest == text[total..];
  }

  /** Skipping a comment to the end of its line. */
  method SkipLine(a: array<char>, json: nat, ghost n: nat, ghost text: string) returns (json': nat)
    requires Unread(a, json, n, text)
    ensures json' == json + LineLength(text)
  {
    json' := json;
    while a[json'] != '\0' && a[json'] != '\n'
      invariant json <= json' <= n
      invariant json' - json + LineLength(text[json' - json..]) == LineLength(text)
      decreases n - json'
    {
      assert text[json' - json..][0] == a[json'] && text[json' - json..][1..] == text[json' + 1 - json..];
      json' := json' + 1;
    }
    assert json' < n ==> text[json' - json..][0] == a[json'];
  }

  /** Skipping a comment up to and including its closing mark. */
  method SkipComment(a: array<char>, json: nat, ghost n: nat, ghost text: string) returns (json': nat)
    requires Unread(a, json, n, text) && CommentLength(text) > 0
    ensures json' == json + CommentLength(text)
  {
    json' := json;
    while a[json'] != '\0' && !(a[json'] == '*' && a[json' + 1] == '/')
      invariant json <= json' <= n
      invariant CommentLength(text[json' - json..]) > 0
      invariant json' - json + CommentLength(text[json' - json..]) == CommentLength(text)
      decreases n - json'
    {
      assert text[json' - json..][0] == a[json'] && text[json' - json..][1..] == text[json' + 1 - json..];
      assert |text[json' - json..]| >= 2 ==> text[json' - json..][1] == a[json' + 1];
      json' := json' + 1;
    }
    json' := json' + 2;
  }

  lemma BehindSlash(t: string)
    requires "//" <= t
    ensures t[0] == '/' && !IsSpace(t[0]) && LineLength(t) == 2 + LineLength(t[2..])
  {
    assert t[1..][1..] == t[2..];
  }

  lemma MinifiedLine(t: string)
    requires "//" <= t
    ensures Minified(t) == Minified(t[LineLength(t)..]) && LineLength(t) >= 2
  {
    BehindSlash(t);
    hide LineLength, CommentLength, LiteralLength;
    assert Minified(t) == Minified(t[2 + LineLength(t[2..])..]);
  }

  lemma MinifiedComment(t: string)
    requires "/*" <= t && Minified(t).Squeezed?
    ensures CommentLength(t) > 0 && Minified(t) == Minified(t[CommentLength(t)..])
  {
    assert t[0] == '/' && t[1] == '*';
    hide LineLength, CommentLength, LiteralLength;
    assert !("//" <= t);
    assert Minified(t) == if CommentLength(t) == 0 then Overruns else Minified(t[CommentLength(t)..]);
  }

  lemma MinifiedLiteral(t: string)
    requires t != [] && t[0] == '\"' && Minified(t).Squeezed?
    ensures LiteralLength(t[1..]) > 0
    ensures Minified(t) == Keep(t[..1 + LiteralLength(t[1..])], Minified(t[1 + LiteralLength(t[1..])..]))
    ensures Minified(t[1 + LiteralLength(t[1..])..]).Squeezed?
  {
    hide LiteralLength, Minified;
    MinifiedAtQuote(t);
  }

  lemma MinifiedOther(t: string)
    requires t != [] && !("//" <= t) && !("/*" <= t) && t[0] != '\"' && Minified(t).Squeezed?
    ensures Minified(t) == if IsSpace(t[0]) then Minified(t[1..]) else Keep(t[..1], Minified(t[1..]))
    ensures Minified(t[1..]).Squeezed?
  {
    assert t[..1] == [t[0]];
    hide LineLength, CommentLength, LiteralLength, IsSpace;
    assert Minified(t) == if IsSpace(t[0]) then Minified(t[1..]) else Keep([t[0]], Minified(t[1..]));
  }

  /** One turn of the main loop. */
  method MinifyStep(a: array<char>, json: nat, into: nat, ghost n: nat, ghost text: string) returns (json': nat, into': nat)
    requires into <= json && Unread(a, json, n, text) && text != [] && Minified(text).Squeezed?
    modifies a
    ensures json < json' <= n && into' <= json'
    ensures Unread(a, json', n, text[json' - json..]) && Minified(text[json' - json..]).Squeezed?
    ensures a[..into'] + Minified(text[json' - json..]).text == old(a[..into]) + Minified(text).text
    ensures forall j | n < j < a.Length :: a[j] == old(a[j])
  {
    hide Minified, LineLength, CommentLength, LiteralLength, Keep;
    json', into' := json, into;
    assert a[json] == text[0] && (|text| >= 2 ==> a[json + 1] == text[1]);
    assert json + 1 == n ==> a[json + 1] == '\0';
    if !("//" <= text) && !("/*" <= text) && text[0] != '\"' {
      MinifiedOther(text);
    }
    if a[json'] == ' ' {
      json' := json' + 1;
    } else if a[json'] == '\t' {
      json' := json' + 1;
    } else if a[json'] == '\r' {
      json' := json' + 1;
    } else if a[json'] == '\n' {
      json' := json' + 1;
    } else if a[json'] == '/' && a[json' + 1] == '/' {
      MinifiedLine(text);
      json' := SkipLine(a, json', n, text);
    } else if a[json'] == '/' && a[json' + 1] == '*' {
      MinifiedComment(text);
      json' := SkipComment(a, json', n, text);
    } else if a[json'] == '\"' {
      MinifiedLiteral(text);
      json', into' := CopyLiteral(a, json', into', n, text);
      Regroup(old(a[..into]), text[..json' - json], Minified(text[json' - json..]));
    } else {
      CopyByte(a, json', into', n, text);
      json', into' := json' + 1, into' + 1;
      Regroup(old(a[..into]), text[..1], Minified(text[1..]));
    }
  }

  lemma Regroup(a: string, b: string, m: Squeezed)
    requires m.Squeezed?
    ensures a + b + m.text == a + Keep(b, m).text
  {
    Assoc(a, b, m.text);
  }

  /** `cJSON_Minify`, rewriting a closed text in place; `m` is where the new terminating NUL stands. */
  method Minify(a: array<char>, ghost n: nat) returns (ghost m: nat)
    requires n < a.Length && a[n] == '\0' && NulFree(a[..n]) && Minified(a[..n]).Squeezed?
    modifies a
    ensures m <= n && a[..m] == Minified(old(a[..n])).text && a[m] == '\0'
    ensures forall j | n < j < a.Length :: a[j] == old(a[j])
  {
    hide Minified;
    var json, into := 0, 0;
    ghost var text := a[..n];
    assert a[0..n] == text;
    while a[json] != '\0'
      invariant 0 <= into <= json && Unread(a, json, n, text) && Minified(text).Squeezed?
      invariant a[..into] + Minified(text).text == Minified(old(a[..n])).text
      invariant forall j | n < j < a.Length :: a[j] == old(a[j])
      decreases n - json
    {
      assert a[json] == '\0' <==> json == n;
      ghost var before := json;
      json, into := MinifyStep(a, json, into, n, text);
      text := text[json - before..];
    }
    assert text == [];
    MinifiedEmpty();
    a[into] := '\0';
    m := into;
  }

  lemma MinifiedEmpty()
    ensures Minified([]) == Squeezed([])
  {
  }
}
