/**
 The printer of cJSON/cJSON.c as it measures, allocates and fills its buffers, proved against the
 texts of JsonText.  Every method returns the contents of the buffer it has filled, up to the NUL.
 */
module JsonPrinter {
  import opened Common
  import opened JsonString
  import opened JsonStringCode
  import opened JsonText
  import opened JsonRoundTrip

  /** What C code reads from a buffer: the first `n` characters, up to their terminating NUL. */
  function Terminated(out: array<char>, n: nat): string
    requires n < out.Length && out[n] == '\0'
    reads out
  {
    out[..n]
  }

  // ---- Arrays ----

  function EachItem(items: Items, depth: nat, fmt: bool): seq<string>
    decreases items
  {
    if items.NoItem? then [] else [PrintValue(items.value, depth, fmt)] + EachItem(items.next, depth, fmt)
  }

  /** The entries with separators between them. */
  function Joined(entries: seq<string>, fmt: bool): string {
    if entries == [] then []
    else if |entries| == 1 then entries[0]
    else entries[0] + ("," + Only(fmt, " ")) + Joined(entries[1..], fmt)
  }

  lemma {:induction false} JoinedIsPrinted(items: Items, depth: nat, fmt: bool)
    ensures Joined(EachItem(items, depth, fmt), fmt) == PrintItems(items, depth, fmt)
    decreases items
  {
    hide PrintValue;
    if items.Item? {
      JoinedIsPrinted(items.next, depth, fmt);
      var each, more := EachItem(items, depth, fmt), EachItem(items.next, depth, fmt);
      assert each[1..] == more && each[0] == PrintValue(items.value, depth, fmt);
      if items.next.Item? {
        Assoc(each[0], "," + Only(fmt, " "), Joined(more, fmt));
      } else {
        assert each[0] + [] == each[0];
      }
    }
  }

  /** What the measuring pass of print_array adds up, beyond its initial 5. */
  function MeasureItems(entries: seq<string>, fmt: bool): nat {
    if entries == [] then 0
    else |entries[0]| + 2 + (if fmt then 1 else 0) + MeasureItems(entries[1..], fmt)
  }

  lemma {:induction false} MeasureMore(entries: seq<string>, e: string, fmt: bool)
    ensures MeasureItems(entries + [e], fmt) == MeasureItems(entries, fmt) + |e| + 2 + (if fmt then 1 else 0)
  {
    if entries == [] {
      assert MeasureItems([], fmt) == 0 && (entries + [e])[1..] == [];
    } else {
      MeasureMore(entries[1..], e, fmt);
      assert (entries + [e])[1..] == entries[1..] + [e];
    }
  }

  /** The measure bounds the composed text with its brackets and terminating NUL. */
  lemma {:induction false} ArrayMeasureBounds(entries: seq<string>, fmt: bool)
    ensures |Joined(entries, fmt)| <= MeasureItems(entries, fmt)
  {
    if |entries| > 0 {
      ArrayMeasureBounds(entries[1..], fmt);
    }
  }

  lemma JoinedSplit(entries: seq<string>, i: nat, fmt: bool)
    requires i < |entries|
    ensures Joined(entries[i..], fmt)
         == entries[i] + (if i == |entries| - 1 then [] else ("," + Only(fmt, " ")) + Joined(entries[i + 1..], fmt))
  {
    assert entries[i..][1..] == entries[i + 1..];
    if i == |entries| - 1 {
      assert entries[i] + [] == entries[i];
    } else {
      Assoc(entries[i], "," + Only(fmt, " "), Joined(entries[i + 1..], fmt));
    }
  }

  method ComposeItem(out: array<char>, at: nat, entry: string, last: bool, fmt: bool) returns (ptr: nat)
    requires at + |entry| + |if last then [] else "," + Only(fmt, " ")| < out.Length
    modifies out
    ensures ptr == at + |entry| + |if last then [] else "," + Only(fmt, " ")|
    ensures out[..ptr] == old(out[..at]) + (entry + (if last then [] else "," + Only(fmt, " "))) && out[ptr] == '\0'
  {
    StrCpy(out, at, entry);
    ptr := at + |entry|;
    if last {
      assert entry + [] == entry;
    } else {
      ptr := PutSeparator(out, ptr, fmt);
      Assoc(old(out[..at]), entry, "," + Only(fmt, " "));
    }
  }

  /** The composing loop of print_array. */
  method ComposeItems(out: array<char>, at: nat, entries: seq<string>, fmt: bool) returns (ptr: nat)
    requires at + |Joined(entries, fmt)| < out.Length && out[at] == '\0'
    modifies out
    ensures ptr == at + |Joined(entries, fmt)| && out[ptr] == '\0'
    ensures out[..ptr] == old(out[..at]) + Joined(entries, fmt)
  {
    hide Joined;
    ptr := at;
    assert entries[0..] == entries;
    ghost var done := "";
    assert old(out[..at]) + done == old(out[..at]) && done + Joined(entries, fmt) == Joined(entries, fmt);
    for i := 0 to |entries|
      invariant done + Joined(entries[i..], fmt) == Joined(entries, fmt)
      invariant ptr == at + |done| < out.Length && out[..ptr] == old(out[..at]) + done && out[ptr] == '\0'
    {
      JoinedSplit(entries, i, fmt);
      var e := entries[i];
      ghost var sep := if i == |entries| - 1 then [] else "," + Only(fmt, " ");
      ghost var more := if i == |entries| - 1 then [] else Joined(entries[i + 1..], fmt);
      Assoc(e, sep, more);
      ptr := ComposeItem(out, ptr, e, i == |entries| - 1, fmt);
      Assoc(done, e + sep, more);
      Assoc(old(out[..at]), done, e + sep);
      done := done + (e + sep);
      if i == |entries| - 1 { JoinedNothing(entries, fmt); }
    }
    JoinedNothing(entries, fmt);
    assert done + [] == done;
  }

  lemma JoinedNothing(entries: seq<string>, fmt: bool)
    ensures Joined(entries[|entries|..], fmt) == []
  {
  }

  method PutSeparator(out: array<char>, at: nat, fmt: bool) returns (ptr: nat)
    requires at + |"," + Only(fmt, " ")| < out.Length
    modifies out
    ensures ptr == at + |"," + Only(fmt, " ")| && out[ptr] == '\0'
    ensures out[..ptr] == old(out[..at]) + ("," + Only(fmt, " "))
  {
    out[at] := ',';
    ptr := at + 1;
    if fmt {
      out[ptr] := ' ';
      ptr := ptr + 1;
    }
    out[ptr] := '\0';
  }

  // ---- Objects ----

  /** The printed name and value of every member. */
  function EachMember(members: Members, depth: nat, fmt: bool): seq<(string, string)>
    decreases members
  {
    if members.NoMember? then []
    else [(Quoted(members.name), PrintValue(members.value, depth, fmt))] + EachMember(members.next, depth, fmt)
  }

  function MemberText(p: (string, string), depth: nat, fmt: bool, last: bool): string {
    Only(fmt, Tabs(depth)) + p.0 + ":" + Only(fmt, "\t") + p.1 + (if last then [] else ",") + Only(fmt, "\n")
  }

  function JoinedMembers(pairs: seq<(string, string)>, depth: nat, fmt: bool): string {
    if pairs == [] then []
    else MemberText(pairs[0], depth, fmt, |pairs| == 1) + JoinedMembers(pairs[1..], depth, fmt)
  }

  lemma {:induction false} JoinedMembersIsPrinted(members: Members, depth: nat, fmt: bool)
    ensures JoinedMembers(EachMember(members, depth, fmt), depth, fmt) == PrintMembers(members, depth, fmt)
    decreases members
  {
    hide PrintValue, Quoted, Tabs;
    if members.Member? {
      JoinedMembersIsPrinted(members.next, depth, fmt);
      assert EachMember(members, depth, fmt)[1..] == EachMember(members.next, depth, fmt);
    }
  }

  /** What the measuring pass of print_object adds up, beyond its initial 7 and the indentation. */
  function MeasureMembers(pairs: seq<(string, string)>, depth: nat, fmt: bool): nat {
    if pairs == [] then 0
    else |pairs[0].1| + |pairs[0].0| + 2 + (if fmt then 2 + depth else 0) + MeasureMembers(pairs[1..], depth, fmt)
  }

  lemma {:induction false} MeasureMoreMembers(pairs: seq<(string, string)>, p: (string, string), depth: nat, fmt: bool)
    ensures MeasureMembers(pairs + [p], depth, fmt)
         == MeasureMembers(pairs, depth, fmt) + |p.1| + |p.0| + 2 + (if fmt then 2 + depth else 0)
  {
    if pairs == [] {
      assert MeasureMembers([], depth, fmt) == 0 && (pairs + [p])[1..] == [];
    } else {
      MeasureMoreMembers(pairs[1..], p, depth, fmt);
      assert (pairs + [p])[1..] == pairs[1..] + [p];
    }
  }

  lemma {:induction false} TabsLength(n: nat)
    ensures |Tabs(n)| == n
  {
    if n > 0 { TabsLength(n - 1); }
  }

  lemma {:induction false} ObjectMeasureBounds(pairs: seq<(string, string)>, depth: nat, fmt: bool)
    ensures |JoinedMembers(pairs, depth, fmt)| <= MeasureMembers(pairs, depth, fmt)
  {
    TabsLength(depth);
    if |pairs| > 0 {
      ObjectMeasureBounds(pairs[1..], depth, fmt);
    }
  }

  method PutTabs(out: array<char>, at: nat, n: nat) returns (ptr: nat)
    requires at + n <= out.Length
    modifies out
    ensures ptr == at + |Tabs(n)| == at + n && out[..ptr] == old(out[..at]) + Tabs(n)
  {
    ptr := at;
    TabsLength(n);
    for j := 0 to n
      invariant ptr == at + j && out[..ptr] == old(out[..at]) + Tabs(j)
    {
      TabsLength(j);
      TabsGrow(j);
      out[ptr] := '\t';
      ptr := ptr + 1;
    }
  }

  lemma {:induction false} TabsGrow(n: nat)
    ensures Tabs(n + 1) == Tabs(n) + "\t"
  {
    if n > 0 { TabsGrow(n - 1); }
  }

  /** `strcpy` and stepping behind it, with `base` in front of what this member has written. */
  method PutText(out: array<char>, at: nat, s: string, ghost base: string, ghost text: string) returns (ptr: nat)
    requires at + |s| < out.Length && out[..at] == base + text
    modifies out
    ensures ptr == at + |s| && out[..ptr] == base + (text + s)
  {
    StrCpy(out, at, s);
    ptr := at + |s|;
    Assoc(base, text, s);
  }

  method PutChar(out: array<char>, at: nat, c: char, ghost base: string, ghost text: string) returns (ptr: nat)
    requires at < out.Length && out[..at] == base + text
    modifies out
    ensures ptr == at + 1 && out[..ptr] == base + (text + [c])
  {
    out[at] := c;
    ptr := at + 1;
    Assoc(base, text, [c]);
    assert out[..ptr] == base + text + [c];
  }

  /** One member of the composing loop of print_object. */
  method PutMember(out: array<char>, at: nat, p: (string, string), depth: nat, fmt: bool, last: bool) returns (ptr: nat)
    requires at + |MemberText(p, depth, fmt, last)| < out.Length
    modifies out
    ensures ptr == at + |MemberText(p, depth, fmt, last)| && out[ptr] == '\0'
    ensures out[..ptr] == old(out[..at]) + MemberText(p, depth, fmt, last)
  {
    TabsLength(depth);
    hide Tabs;
    ghost var base, text := out[..at], Only(fmt, Tabs(depth));
    ptr := at;
    if fmt {
      ptr := PutTabs(out, ptr, depth);
    } else {
      assert base + [] == base;
    }
    ptr := PutText(out, ptr, p.0, base, text);
    ptr := PutChar(out, ptr, ':', base, text + p.0);
    text := text + p.0 + ":";
    if fmt {
      ptr := PutChar(out, ptr, '\t', base, text);
    }
    assert !fmt ==> text + Only(fmt, "\t") == text;
    text := text + Only(fmt, "\t");
    ptr := PutText(out, ptr, p.1, base, text);
    text := text + p.1;
    if !last {
      ptr := PutChar(out, ptr, ',', base, text);
    }
    assert last ==> text + [] == text;
    text := text + (if last then [] else ",");
    if fmt {
      ptr := PutChar(out, ptr, '\n', base, text);
    }
    assert !fmt ==> text + Only(fmt, "\n") == text;
    out[ptr] := '\0';
  }

  method ComposeMembers(out: array<char>, at: nat, pairs: seq<(string, string)>, depth: nat, fmt: bool) returns (ptr: nat)
    requires at + |JoinedMembers(pairs, depth, fmt)| < out.Length && out[at] == '\0'
    modifies out
    ensures ptr == at + |JoinedMembers(pairs, depth, fmt)| && out[ptr] == '\0'
    ensures out[..ptr] == old(out[..at]) + JoinedMembers(pairs, depth, fmt)
  {
    hide JoinedMembers, MemberText;
    ptr := at;
    ghost var base, done, all := out[..at], "", JoinedMembers(pairs, depth, fmt);
    assert pairs[0..] == pairs && base + done == base && done + all == all;
    for i := 0 to |pairs|
      invariant done + JoinedMembers(pairs[i..], depth, fmt) == all
      invariant ptr == at + |done| < out.Length && out[..ptr] == base + done && out[ptr] == '\0'
    {
      MembersSplitAt(pairs, i, depth, fmt);
      ghost var text, more := MemberText(pairs[i], depth, fmt, i == |pairs| - 1), JoinedMembers(pairs[i + 1..], depth, fmt);
      Assoc(done, text, more);
      ptr := PutMember(out, ptr, pairs[i], depth, fmt, i == |pairs| - 1);
      Assoc(base, done, text);
      done := done + text;
    }
    JoinedNoMembers(pairs, depth, fmt);
    assert done + [] == done;
  }

  lemma MembersSplitAt(pairs: seq<(string, string)>, i: nat, depth: nat, fmt: bool)
    requires i < |pairs|
    ensures JoinedMembers(pairs[i..], depth, fmt)
         == MemberText(pairs[i], depth, fmt, i == |pairs| - 1) + JoinedMembers(pairs[i + 1..], depth, fmt)
  {
    assert pairs[i..][1..] == pairs[i + 1..];
  }

  lemma JoinedNoMembers(pairs: seq<(string, string)>, depth: nat, fmt: bool)
    ensures JoinedMembers(pairs[|pairs|..], depth, fmt) == []
  {
  }

  // ---- The print functions ----

  /** The measuring loop of print_array: every child's text and the sum of the estimates. */
  method MeasureArray(items: Items, depth: nat, fmt: bool) returns (entries: seq<string>, len: nat)
    requires PrintableItems(items)
    ensures entries == EachItem(items, depth, fmt) && len == 5 + MeasureItems(entries, fmt)
    decreases items, 0
  {
    entries, len := [], 5;
    var child := items;
    assert [] + EachItem(items, depth, fmt) == EachItem(items, depth, fmt) && MeasureItems([], fmt) == 0;
    hide MeasureItems, PrintValue, EachItem;
    while child.Item?
      invariant PrintableItems(child) && (child == items || child < items)
      invariant entries + EachItem(child, depth, fmt) == EachItem(items, depth, fmt)
      invariant len == 5 + MeasureItems(entries, fmt)
      decreases child
    {
      var ret := Print(child.value, depth, fmt);
      MeasureMore(entries, ret, fmt);
      EachItemStep(entries, child, depth, fmt);
      entries := entries + [ret];
      len := len + |ret| + 2 + (if fmt then 1 else 0);
      child := child.next;
    }
    EachItemEnd(entries, depth, fmt);
  }

  lemma EachItemStep(entries: seq<string>, items: Items, depth: nat, fmt: bool)
    requires items.Item?
    ensures entries + EachItem(items, depth, fmt)
         == entries + [PrintValue(items.value, depth, fmt)] + EachItem(items.next, depth, fmt)
  {
  }

  lemma EachItemEnd(entries: seq<string>, depth: nat, fmt: bool)
    ensures entries + EachItem(NoItem, depth, fmt) == entries
  {
  }

  /** `print_array` */
  method PrintArray(items: Items, depth: nat, fmt: bool) returns (text: string)
    requires PrintableItems(items)
    ensures text == PrintValue(Array(items), depth, fmt)
    decreases items, 1
  {
    hide PrintItems, Joined;
    if items.NoItem? {
      var empty := new char[3];
      StrCpy(empty, 0, "[]");
      return Terminated(empty, 2);
    }
    JoinedIsPrinted(items, depth + 1, fmt);
    var entries, len := MeasureArray(items, depth + 1, fmt);
    ArrayMeasureBounds(entries, fmt);
    var out := new char[len];
    out[0], out[1] := '[', '\0';
    var ptr := ComposeItems(out, 1, entries, fmt);
    out[ptr], out[ptr + 1] := ']', '\0';
    text := Terminated(out, ptr + 1);
    assert text == "[" + PrintItems(items, depth + 1, fmt) + "]";
  }

  /** The measuring loop of print_object. */
  method MeasureObject(members: Members, depth: nat, fmt: bool) returns (pairs: seq<(string, string)>, len: nat)
    requires PrintableMembers(members)
    ensures pairs == EachMember(members, depth, fmt)
    ensures len == 7 + (if fmt then depth else 0) + MeasureMembers(pairs, depth, fmt)
    decreases members, 0
  {
    pairs, len := [], 7 + (if fmt then depth else 0);
    var child := members;
    assert [] + EachMember(members, depth, fmt) == EachMember(members, depth, fmt) && MeasureMembers([], depth, fmt) == 0;
    hide MeasureMembers, PrintValue, Quoted, EachMember;
    while child.Member?
      invariant PrintableMembers(child) && (child == members || child < members)
      invariant pairs + EachMember(child, depth, fmt) == EachMember(members, depth, fmt)
      invariant len == 7 + (if fmt then depth else 0) + MeasureMembers(pairs, depth, fmt)
      decreases child
    {
      var str := PrintStringPtr(child.name, true);
      var name := Terminated(str, str.Length - 1);
      var ret := Print(child.value, depth, fmt);
      MeasureMoreMembers(pairs, (name, ret), depth, fmt);
      EachMemberStep(pairs, child, depth, fmt);
      pairs := pairs + [(name, ret)];
      len := len + |ret| + |name| + 2 + (if fmt then 2 + depth else 0);
      child := child.next;
    }
    EachMemberEnd(pairs, depth, fmt);
  }

  lemma EachMemberStep(pairs: seq<(string, string)>, members: Members, depth: nat, fmt: bool)
    requires members.Member?
    ensures pairs + EachMember(members, depth, fmt)
         == pairs + [(Quoted(members.name), PrintValue(members.value, depth, fmt))] + EachMember(members.next, depth, fmt)
  {
  }

  lemma EachMemberEnd(pairs: seq<(string, string)>, depth: nat, fmt: bool)
    ensures pairs + EachMember(NoMember, depth, fmt) == pairs
  {
  }

  /** `print_object` */
  method PrintObject(members: Members, depth: nat, fmt: bool) returns (text: string)
    requires PrintableMembers(members)
    ensures text == PrintValue(Object(members), depth, fmt)
    decreases members, 1
  {
    hide PrintMembers, JoinedMembers, Tabs;
    if members.NoMember? {
      text := PrintEmptyObject(depth, fmt);
    } else {
      JoinedMembersIsPrinted(members, depth + 1, fmt);
      var pairs, len := MeasureObject(members, depth + 1, fmt);
      ObjectMeasureBounds(pairs, depth + 1, fmt);
      text := ComposeObject(pairs, depth, fmt, len);
    }
  }

  /** The composing part of print_object. */
  method ComposeObject(pairs: seq<(string, string)>, depth: nat, fmt: bool, len: nat) returns (text: string)
    requires |JoinedMembers(pairs, depth + 1, fmt)| + 7 + (if fmt then depth + 1 else 0) <= len
    ensures text == "{" + Only(fmt, "\n") + JoinedMembers(pairs, depth + 1, fmt) + Only(fmt, Tabs(depth)) + "}"
  {
    hide JoinedMembers, Tabs;
    TabsLength(depth);
    var out := new char[len];
    out[0] := '{';
    var ptr := 1;
    if fmt {
      out[ptr] := '\n';
      ptr := ptr + 1;
    }
    out[ptr] := '\0';
    assert out[..ptr] == "{" + Only(fmt, "\n");
    ptr := ComposeMembers(out, ptr, pairs, depth + 1, fmt);
    if fmt {
      ptr := PutTabs(out, ptr, depth);
    }
    assert out[..ptr] == "{" + Only(fmt, "\n") + JoinedMembers(pairs, depth + 1, fmt) + Only(fmt, Tabs(depth));
    out[ptr], out[ptr + 1] := '}', '\0';
    text := Terminated(out, ptr + 1);
  }

  method PrintEmptyObject(depth: nat, fmt: bool) returns (text: string)
    ensures text == PrintValue(Object(NoMember), depth, fmt)
  {
    var out := new char[if fmt then depth + 4 else 3];
    out[0] := '{';
    var ptr := 1;
    if fmt {
      out[1] := '\n';
      ptr := PutTabs(out, 2, if depth == 0 then 0 else depth - 1);
    }
    assert out[..ptr] == "{" + Only(fmt, "\n" + Tabs(depth - 1));
    out[ptr], out[ptr + 1] := '}', '\0';
    text := Terminated(out, ptr + 1);
  }

  /** `print_value`; the integer branch of print_number is `%d`. */
  method Print(v: Json, depth: nat, fmt: bool) returns (text: string)
    requires Printable(v)
    ensures text == PrintValue(v, depth, fmt)
    decreases v, 1
  {
    match v
    case Null => text := "null";
    case False => text := "false";
    case True => text := "true";
    case Number(m, _) => text := PrintInt(m);
    case Text(s) =>
      var out := PrintStringPtr(s, true);
      text := Terminated(out, out.Length - 1);
    case Array(items) => text := PrintArray(items, depth, fmt);
    case Object(members) => text := PrintObject(members, depth, fmt);
  }
}
