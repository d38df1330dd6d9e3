/**
 The tabbed layout of print_value, told from the compact text alone: a pass over its characters that
 keeps a stack of the open brackets puts in the line feeds, tabs and spaces.
 */
module JsonLayout {
  import opened Common
  import opened Ascii
  import opened JsonString
  import opened JsonText
  import opened JsonRoundTrip
  import M = JsonMinify

  /** The open brackets, innermost last; `true` stands for a brace. */
  type Stack = seq<bool>

  function Pop(open: Stack): Stack { if open == [] then [] else open[..|open| - 1] }

  predicate InObject(open: Stack) { open != [] && open[|open| - 1] }

  /** The brackets open behind a character. */
  function After(c: char, open: Stack): Stack {
    if c == '{' then open + [true]
    else if c == '[' then open + [false]
    else if c == '}' || c == ']' then Pop(open)
    else open
  }

  /** A character with what the layout puts around it. */
  function Shown(c: char, open: Stack): string {
    if c == '{' then "{\n" + Tabs(|open| + 1)
    else if c == '}' then "\n" + Tabs(|open| - 1) + "}"
    else if c == ',' then (if InObject(open) then ",\n" + Tabs(|open|) else ", ")
    else if c == ':' then ":\t"
    else [c]
  }

  /** Every member stands on a line of its own, indented by the brackets open around it, a tab behind its
      colon; a closing brace stands on a line indented by those open around its object, one less if the
      object is empty; the elements of an array are separated by a space behind the comma. */
  function Pretty(t: string, open: Stack): string
    decreases |t|
  {
    if t == [] then []
    else if t[0] == '\"' then
      (var n := M.LiteralLength(t[1..]); if n == 0 then t else t[..n + 1] + Pretty(t[n + 1..], open))
    else if "{}" <= t then "{\n" + Tabs(|open| - 1) + "}" + Pretty(t[2..], open)
    else Shown(t[0], open) + Pretty(t[1..], After(t[0], open))
  }

  /** In front of any text, `a` is laid out as `b`. */
  ghost predicate Lays(a: string, b: string, open: Stack) {
    forall rest :: Pretty(a + rest, open) == b + Pretty(rest, open)
  }

  lemma LaysAt(a: string, b: string, open: Stack, rest: string)
    requires Lays(a, b, open)
    ensures Pretty(a + rest, open) == b + Pretty(rest, open)
  {
  }

  lemma Join(a: string, b: string, a': string, b': string, open: Stack)
    requires Lays(a, b, open) && Lays(a', b', open)
    ensures Lays(a + a', b + b', open)
  {
    hide Pretty;
    forall rest
      ensures Pretty(a + a' + rest, open) == b + b' + Pretty(rest, open)
    {
      Assoc(a, a', rest);
      Assoc(b, b', Pretty(rest, open));
    }
  }

  lemma {:induction false} TabsMean(n: int)
    ensures |Tabs(n)| == (if n < 0 then 0 else n) && forall k | 0 <= k < |Tabs(n)| :: Tabs(n)[k] == '\t'
  {
    if n > 0 {
      TabsMean(n - 1);
    }
  }

  // ---- Characters ----

  predicate IsPlain(c: char) { c !in "\"{}[],:" }

  lemma CharStep(c: char, rest: string, open: Stack)
    requires c != '\"' && (c == '{' ==> rest == [] || rest[0] != '}')
    ensures Pretty([c] + rest, open) == Shown(c, open) + Pretty(rest, After(c, open))
  {
    var t := [c] + rest;
    assert t[0] == c && t[1..] == rest && !("{}" <= t);
    hide Shown, After, M.LiteralLength, Tabs;
  }

  lemma PlainStep(c: char, rest: string, open: Stack)
    requires IsPlain(c)
    ensures Pretty([c] + rest, open) == [c] + Pretty(rest, open)
  {
    hide Pretty;
    CharStep(c, rest, open);
  }

  lemma {:induction false} PlainLays(s: string, open: Stack)
    requires forall k | 0 <= k < |s| :: IsPlain(s[k])
    ensures Lays(s, s, open)
  {
    hide Pretty, IsPlain;
    if s == [] {
      forall rest: string ensures s + rest == rest && [] + Pretty(rest, open) == Pretty(rest, open) {
      }
    } else {
      forall rest
        ensures Pretty([s[0]] + rest, open) == [s[0]] + Pretty(rest, open)
      {
        PlainStep(s[0], rest, open);
      }
      PlainLays(s[1..], open);
      Join([s[0]], [s[0]], s[1..], s[1..], open);
      assert s == [s[0]] + s[1..];
    }
  }

  lemma LiteralLays(s: string, open: Stack)
    ensures Lays(Quoted(s), Quoted(s), open)
  {
    forall rest
      ensures Pretty(Quoted(s) + rest, open) == Quoted(s) + Pretty(rest, open)
    {
      LiteralStep(s, rest, open);
    }
  }

  lemma LiteralStep(s: string, rest: string, open: Stack)
    ensures Pretty(Quoted(s) + rest, open) == Quoted(s) + Pretty(rest, open)
  {
    var t, n := Quoted(s) + rest, |Escape(s, true)| + 1;
    M.LiteralOfEscape(s, rest);
    hide Escape, M.LiteralLength;
    assert t[1..] == Escape(s, true) + ("\"" + rest);
    assert t[..n + 1] == Quoted(s) && t[n + 1..] == rest;
  }

  lemma IntLays(n: int, open: Stack)
    ensures Lays(PrintInt(n), PrintInt(n), open)
  {
    DecimalDigits(if n < 0 then -n else n);
    PlainLays(PrintInt(n), open);
  }

  lemma ColonLays(open: Stack)
    ensures Lays(":", ":\t", open)
  {
    hide Pretty;
    forall rest ensures Pretty(":" + rest, open) == ":\t" + Pretty(rest, open) {
      CharStep(':', rest, open);
    }
  }

  lemma CommaStep(rest: string, open: Stack)
    ensures Pretty("," + rest, open) == (if InObject(open) then ",\n" + Tabs(|open|) else ", ") + Pretty(rest, open)
  {
    hide Pretty;
    CharStep(',', rest, open);
  }

  lemma BracketSteps(rest: string, open: Stack)
    ensures Pretty("[" + rest, open) == "[" + Pretty(rest, open + [false])
    ensures Pretty("]" + rest, open + [false]) == "]" + Pretty(rest, open)
  {
    hide Pretty;
    CharStep('[', rest, open);
    CharStep(']', rest, open + [false]);
    assert Pop(open + [false]) == open;
  }

  lemma OpenStep(rest: string, open: Stack)
    requires rest != [] && rest[0] != '}'
    ensures Pretty("{" + rest, open) == "{\n" + Tabs(|open| + 1) + Pretty(rest, open + [true])
  {
    hide Pretty, Tabs;
    CharStep('{', rest, open);
  }

  lemma CloseStep(rest: string, open: Stack)
    ensures Pretty("}" + rest, open + [true]) == "\n" + Tabs(|open|) + "}" + Pretty(rest, open)
  {
    hide Pretty, Tabs;
    CharStep('}', rest, open + [true]);
    assert Pop(open + [true]) == open;
  }

  lemma EmptyStep(rest: string, open: Stack)
    ensures Pretty("{}" + rest, open) == "{\n" + Tabs(|open| - 1) + "}" + Pretty(rest, open)
  {
    var t := "{}" + rest;
    assert "{}" <= t && t[0] == '{' && t[2..] == rest;
    hide Shown, After, M.LiteralLength, Tabs;
  }

  // ---- Trees ----

  lemma {:induction false} ValueLays(v: Json, depth: nat, open: Stack)
    ensures Lays(PrintValue(v, depth, false), PrintValue(v, |open|, true), open)
    decreases v, 0
  {
    hide Lays, PrintInt, Quoted, PrintItems, PrintMembers;
    match v
    case Null => PlainLays("null", open);
    case False => PlainLays("false", open);
    case True => PlainLays("true", open);
    case Number(m, _) => IntLays(m, open);
    case Text(s) => LiteralLays(s, open);
    case Array(items) => ArrayLays(items, depth, open);
    case Object(members) => ObjectLays(members, depth, open);
  }

  lemma {:induction false} ArrayLays(items: Items, depth: nat, open: Stack)
    ensures Lays(PrintValue(Array(items), depth, false), PrintValue(Array(items), |open|, true), open)
    decreases items, 2
  {
    hide Pretty, PrintItems;
    var a, b := PrintItems(items, depth + 1, false), PrintItems(items, |open| + 1, true);
    if items.Item? {
      ItemsLay(items, depth + 1, open + [false]);
    }
    forall rest
      ensures Pretty(PrintValue(Array(items), depth, false) + rest, open)
           == PrintValue(Array(items), |open|, true) + Pretty(rest, open)
    {
      if items.NoItem? {
        BracketSteps("]" + rest, open);
        BracketSteps(rest, open);
        assert "[]" + rest == "[" + ("]" + rest);
        assert "[" + ("]" + Pretty(rest, open)) == "[]" + Pretty(rest, open);
      } else {
        BracketSteps(a + ("]" + rest), open);
        LaysAt(a, b, open + [false], "]" + rest);
        BracketSteps(rest, open);
        Enclosed("[", a, "]", rest);
        Enclosed("[", b, "]", Pretty(rest, open));
      }
    }
  }

  lemma Enclosed(o: string, inside: string, c: string, rest: string)
    ensures o + inside + c + rest == o + (inside + (c + rest))
  {
  }

  lemma {:induction false} ItemsLay(items: Items, depth: nat, open: Stack)
    requires open != [] && !InObject(open)
    ensures Lays(PrintItems(items, depth, false), PrintItems(items, |open|, true), open)
    decreases items, 1
  {
    hide PrintValue;
    if items.NoItem? {
      PlainLays([], open);
    } else {
      hide Pretty;
      var a, b := PrintValue(items.value, depth, false), PrintValue(items.value, |open|, true);
      ValueLays(items.value, depth, open);
      if items.next.NoItem? {
        hide Lays;
        assert a + [] == a && b + [] == b;
      } else {
        ItemsLay(items.next, depth, open);
        forall rest ensures Pretty("," + rest, open) == ", " + Pretty(rest, open) { CommaStep(rest, open); }
        assert Lays(",", ", ", open);
        hide Lays;
        var more, more' := PrintItems(items.next, depth, false), PrintItems(items.next, |open|, true);
        Join(",", ", ", more, more', open);
        Join(a, b, "," + more, ", " + more', open);
        assert PrintItems(items, depth, false) == a + ("," + [] + more);
        assert "," + [] == "," && "," + " " == ", ";
      }
    }
  }

  lemma {:induction false} ObjectLays(members: Members, depth: nat, open: Stack)
    ensures Lays(PrintValue(Object(members), depth, false), PrintValue(Object(members), |open|, true), open)
    decreases members, 2
  {
    hide Pretty, PrintMembers, Tabs;
    forall rest
      ensures Pretty(PrintValue(Object(members), depth, false) + rest, open)
           == PrintValue(Object(members), |open|, true) + Pretty(rest, open)
    {
      if members.NoMember? {
        EmptyStep(rest, open);
        assert PrintValue(Object(members), depth, false) == "{}";
        EmptyText(Tabs(|open| - 1), Pretty(rest, open));
      } else {
        var a, b := PrintMembers(members, depth + 1, false), PrintMembers(members, |open| + 1, true);
        MembersBegin(members, depth + 1, "}" + rest);
        OpenStep(a + ("}" + rest), open);
        MembersLay(members, depth + 1, open, rest);
        ObjectText(a, rest);
        assert PrintValue(Object(members), depth, false) == "{" + [] + a + [] + "}";
        assert PrintValue(Object(members), |open|, true) == "{" + "\n" + b + Tabs(|open|) + "}";
        FullText(Tabs(|open| + 1), b, Tabs(|open|), Pretty(a + ("}" + rest), open + [true]), Pretty(rest, open));
      }
    }
  }

  lemma EmptyText(tabs: string, rest: string)
    ensures "{\n" + tabs + "}" + rest == "{" + ("\n" + tabs) + "}" + rest
  {
  }

  lemma ObjectText(a: string, rest: string)
    ensures "{" + [] + a + [] + "}" + rest == "{" + (a + ("}" + rest))
  {
  }

  lemma FullText(tabs: string, b: string, tabs': string, p: string, q: string)
    requires tabs + p == b + tabs' + "}" + q
    ensures "{\n" + tabs + p == "{" + "\n" + b + tabs' + "}" + q
  {
    assert "{\n" + tabs + p == "{\n" + (tabs + p);
  }

  lemma MembersBegin(members: Members, depth: nat, rest: string)
    requires members.Member?
    ensures var t := PrintMembers(members, depth, false) + rest; t != [] && t[0] == '\"'
  {
    hide PrintValue, Escape;
    var q := Quoted(members.name);
    assert PrintMember(members, depth, false)[0] == q[0];
  }

  /** The members up to the closing brace, the tabs of the first line in front. */
  lemma {:induction false} MembersLay(members: Members, depth: nat, open: Stack, rest: string)
    requires members.Member?
    ensures Tabs(|open| + 1) + Pretty(PrintMembers(members, depth, false) + ("}" + rest), open + [true])
         == PrintMembers(members, |open| + 1, true) + Tabs(|open|) + "}" + Pretty(rest, open)
    decreases members, 1
  {
    hide Pretty, Lays, PrintValue, Quoted, Tabs;
    var d, inside := |open| + 1, open + [true];
    var name, v, v' := Quoted(members.name), PrintValue(members.value, depth, false), PrintValue(members.value, d, true);
    LiteralLays(members.name, inside);
    ColonLays(inside);
    ValueLays(members.value, depth, inside);
    Join(name, name, ":", ":\t", inside);
    Join(name + ":", name + ":\t", v, v', inside);
    var a, b := name + ":" + v, name + ":\t" + v';
    if members.next.NoMember? {
      LaysAt(a, b, inside, "}" + rest);
      CloseStep(rest, open);
      assert PrintMembers(members, depth, false) == PrintMember(members, depth, false) + [];
      assert PrintMember(members, depth, false) == [] + name + ":" + [] + v + [] + [];
      OneMember(name, v);
      assert PrintMembers(members, d, true) == PrintMember(members, d, true) + [];
      assert PrintMember(members, d, true) == Tabs(d) + name + ":" + "\t" + v' + [] + "\n";
      LastMember(Tabs(d), name, v', Tabs(|open|), Pretty(rest, open));
    } else {
      var more, more' := PrintMembers(members.next, depth, false), PrintMembers(members.next, d, true);
      var tail := more + ("}" + rest);
      LaysAt(a, b, inside, "," + tail);
      CommaStep(tail, inside);
      MembersLay(members.next, depth, open, rest);
      assert PrintMember(members, depth, false) == [] + name + ":" + [] + v + "," + [];
      ManyMembers(name, v, more, "}" + rest);
      assert PrintMember(members, d, true) == Tabs(d) + name + ":" + "\t" + v' + "," + "\n";
      NextMember(Tabs(d), name, v', more', Tabs(|open|), Pretty(tail, inside), Pretty(rest, open));
    }
  }

  lemma OneMember(name: string, v: string)
    ensures [] + name + ":" + [] + v + [] + [] + [] == name + ":" + v
  {
  }

  lemma LastMember(tabs: string, name: string, v: string, tabs': string, q: string)
    ensures tabs + (name + ":\t" + v + ("\n" + tabs' + "}" + q))
         == tabs + name + ":" + "\t" + v + [] + "\n" + [] + tabs' + "}" + q
  {
    assert ":" + "\t" == ":\t";
  }

  lemma ManyMembers(name: string, v: string, more: string, rest: string)
    ensures [] + name + ":" + [] + v + "," + [] + more + rest == name + ":" + v + ("," + (more + rest))
  {
  }

  lemma NextMember(tabs: string, name: string, v: string, more: string, tabs': string, p: string, q: string)
    requires tabs + p == more + tabs' + "}" + q
    ensures tabs + (name + ":\t" + v + (",\n" + tabs + p))
         == tabs + name + ":" + "\t" + v + "," + "\n" + more + tabs' + "}" + q
  {
    assert ":" + "\t" == ":\t" && "," + "\n" == ",\n";
    assert ",\n" + tabs + p == ",\n" + (tabs + p);
  }

  /** The tabbed print of any tree is its compact print laid out so. */
  lemma TabbedIsPretty(v: Json)
    ensures PrintValue(v, 0, true) == Pretty(PrintValue(v, 0, false), [])
  {
    hide PrintValue;
    ValueLays(v, 0, []);
    LaysAt(PrintValue(v, 0, false), PrintValue(v, 0, true), [], []);
    assert PrintValue(v, 0, false) + [] == PrintValue(v, 0, false);
    assert PrintValue(v, 0, true) + [] == PrintValue(v, 0, true);
  }
}
