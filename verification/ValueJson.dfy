/**
 Values through JSON text: toCJSON, fromCJSON, toJSON and fromJSON (rct/Value.cpp).
 */
module ValueJson {
  import opened Common
  import opened JsonString
  import opened JsonText
  import opened JsonRoundTrip
  import opened JsonParser
  import opened JsonPrinter
  import W = Wire
  import C = WireCode

  /** `c_str()`: what C code sees of a string. */
  function CStr(s: string): string {
    if s == [] || s[0] == '\0' then [] else [s[0]] + CStr(s[1..])
  }

  /** Values whose conversion involves no floating point and no raw text. */
  predicate NoDoubles(v: W.Value) {
    match v
    case Double(_) => false
    case Custom => false
    case Map(entries) => NoDoublesEntries(entries)
    case List(items) => NoDoublesItems(items)
    case _ => true
  }

  predicate NoDoublesItems(items: W.Values) {
    items.More? ==> NoDoubles(items.value) && NoDoublesItems(items.next)
  }

  predicate NoDoublesEntries(entries: W.Entries) {
    entries.Entry? ==> NoDoubles(entries.value) && NoDoublesEntries(entries.next)
  }

  /** `Value::toCJSON` */
  function ToTree(v: W.Value): Json
    requires NoDoubles(v)
  {
    match v
    case Boolean(b) => if b then True else False
    case Integer(n) => Number(W.Wrap32(n), 0)
    case Date(time) => Number(W.Wrap32(time), 0)
    case String(s) => Text(CStr(s))
    case List(items) => Array(ToItems(items))
    case Map(entries) => Object(ToMembers(entries))
    case _ => Null
  }

  function ToItems(items: W.Values): Items
    requires NoDoublesItems(items)
  {
    if items.NoValue? then NoItem else Item(ToTree(items.value), ToItems(items.next))
  }

  function ToMembers(entries: W.Entries): Members
    requires NoDoublesEntries(entries)
  {
    if entries.NoEntry? then NoMember else Member(CStr(entries.key), ToTree(entries.value), ToMembers(entries.next))
  }

  function Pow10(n: nat): (p: nat)
    ensures p > 0
  {
    if n == 0 then 1 else 10 * Pow10(n - 1)
  }

  /** The integer that `m * 10^e` is, if it is one. */
  function Whole(m: int, e: int): Option<int> {
    if e >= 0 then Some(m * Pow10(e))
    else if m % Pow10(-e) == 0 then Some(m / Pow10(-e))
    else None
  }

  /** `valueint == valuedouble` tells integers from doubles, whose bytes are not modelled. */
  function FromNumber(m: int, e: int): W.Value {
    match Whole(m, e)
    case Some(n) => if IsInt32(n) then W.Integer(n) else W.Double([])
    case None => W.Double([])
  }

  /** `fromCJSON` */
  function FromTree(j: Json): W.Value {
    match j
    case False => W.Boolean(false)
    case True => W.Boolean(true)
    case Null => W.Invalid
    case Number(m, e) => FromNumber(m, e)
    case Text(s) => W.String(s)
    case Array(items) => W.List(FromItems(items))
    case Object(members) => W.Map(FromMembers(members, W.NoEntry))
  }

  function FromItems(items: Items): W.Values {
    if items.NoItem? then W.NoValue else W.More(FromTree(items.value), FromItems(items.next))
  }

  function FromMembers(members: Members, acc: W.Entries): W.Entries
    decreases members
  {
    if members.NoMember? then acc
    else FromMembers(members.next, W.Insert(acc, members.name, FromTree(members.value)))
  }

  /** `Value::toJSON` */
  function ToJson(v: W.Value, pretty: bool): string
    requires NoDoubles(v)
  {
    PrintValue(ToTree(v), 0, pretty)
  }

  /** `Value::fromJSON`; text behind the value is ignored. */
  function FromJson(json: string): Option<W.Value> {
    var tree := ParseValue(Skip(json));
    if tree.Done? then Some(FromTree(tree.value)) else None
  }

  // ---- The round trip ----

  lemma {:induction false} CStrIsNulFree(s: string)
    ensures NulFree(CStr(s)) && (NulFree(s) ==> CStr(s) == s)
  {
    if s != [] && s[0] != '\0' {
      CStrIsNulFree(s[1..]);
      assert s == [s[0]] + s[1..];
    }
  }

  lemma {:induction false} TreeIsPrintable(v: W.Value)
    requires NoDoubles(v) && W.WellFormed(v)
    ensures Printable(ToTree(v))
    decreases v
  {
    match v
    case String(s) => CStrIsNulFree(s);
    case List(items) => ItemsArePrintable(items);
    case Map(entries) => MembersArePrintable(entries);
    case _ =>
  }

  lemma {:induction false} ItemsArePrintable(items: W.Values)
    requires NoDoublesItems(items) && W.WellFormedItems(items)
    ensures PrintableItems(ToItems(items))
    decreases items
  {
    if items.More? {
      TreeIsPrintable(items.value);
      ItemsArePrintable(items.next);
    }
  }

  lemma {:induction false} MembersArePrintable(entries: W.Entries)
    requires NoDoublesEntries(entries) && W.WellFormedEntries(entries)
    ensures PrintableMembers(ToMembers(entries))
    decreases entries
  {
    if entries.Entry? {
      CStrIsNulFree(entries.key);
      TreeIsPrintable(entries.value);
      MembersArePrintable(entries.next);
    }
  }

  /** Null, booleans, 32-bit integers, NUL-free strings and keys, and lists and maps of these. */
  ghost predicate Representable(v: W.Value) {
    match v
    case Invalid => true
    case Boolean(_) => true
    case Integer(n) => IsInt32(n)
    case String(s) => NulFree(s)
    case List(items) => RepresentableItems(items)
    case Map(entries) => RepresentableEntries(entries)
    case _ => false
  }

  ghost predicate RepresentableItems(items: W.Values) {
    items.More? ==> Representable(items.value) && RepresentableItems(items.next)
  }

  ghost predicate RepresentableEntries(entries: W.Entries) {
    entries.Entry? ==> NulFree(entries.key) && Representable(entries.value) && RepresentableEntries(entries.next)
  }

  lemma {:induction false} TreeRoundTrip(v: W.Value)
    requires NoDoubles(v) && W.WellFormed(v) && Representable(v)
    ensures FromTree(ToTree(v)) == v
    decreases v
  {
    match v
    case String(s) => CStrIsNulFree(s);
    case List(items) => ItemsRoundTrip(items);
    case Map(entries) =>
      EntriesRoundTrip(entries);
      MembersInOrder(ToMembers(entries), W.NoEntry);
    case _ =>
  }

  lemma {:induction false} ItemsRoundTrip(items: W.Values)
    requires NoDoublesItems(items) && W.WellFormedItems(items) && RepresentableItems(items)
    ensures FromItems(ToItems(items)) == items
    decreases items
  {
    if items.More? {
      TreeRoundTrip(items.value);
      ItemsRoundTrip(items.next);
    }
  }

  /** The members as they stand, without the map's sorting and overwriting. */
  function EntriesOf(members: Members): W.Entries
    decreases members
  {
    if members.NoMember? then W.NoEntry else W.Entry(members.name, FromTree(members.value), EntriesOf(members.next))
  }

  /** Members whose names are in order are inserted one behind the other. */
  lemma {:induction false} MembersInOrder(members: Members, acc: W.Entries)
    requires W.Sorted(EntriesOf(members)) && (members.Member? ==> W.AllBelow(acc, members.name))
    ensures FromMembers(members, acc) == W.Concat(acc, EntriesOf(members))
    decreases members
  {
    hide FromTree;
    if members.NoMember? {
      W.ConcatNothing(acc);
    } else {
      var key, v := members.name, FromTree(members.value);
      W.InsertLast(acc, key, v);
      if members.next.Member? {
        W.BelowNext(acc, key, v, members.next.name);
      }
      MembersInOrder(members.next, W.Concat(acc, W.Entry(key, v, W.NoEntry)));
      W.ConcatOne(acc, key, v, EntriesOf(members.next));
    }
  }

  lemma {:induction false} EntriesRoundTrip(entries: W.Entries)
    requires NoDoublesEntries(entries) && W.WellFormedEntries(entries) && RepresentableEntries(entries)
    ensures EntriesOf(ToMembers(entries)) == entries
    decreases entries
  {
    if entries.Entry? {
      CStrIsNulFree(entries.key);
      TreeRoundTrip(entries.value);
      EntriesRoundTrip(entries.next);
    }
  }

  /** What comes out of a printable tree is representable. */
  lemma {:induction false} FromTreeIsRepresentable(j: Json)
    requires Printable(j)
    ensures Representable(FromTree(j))
    decreases j
  {
    match j
    case Array(items) => FromItemsAreRepresentable(items);
    case Object(members) => FromMembersAreRepresentable(members, W.NoEntry);
    case _ =>
  }

  lemma {:induction false} FromItemsAreRepresentable(items: Items)
    requires PrintableItems(items)
    ensures RepresentableItems(FromItems(items))
    decreases items
  {
    if items.Item? {
      FromTreeIsRepresentable(items.value);
      FromItemsAreRepresentable(items.next);
    }
  }

  lemma {:induction false} FromMembersAreRepresentable(members: Members, acc: W.Entries)
    requires PrintableMembers(members) && RepresentableEntries(acc)
    ensures RepresentableEntries(FromMembers(members, acc))
    decreases members
  {
    if members.Member? {
      var v := FromTree(members.value);
      FromTreeIsRepresentable(members.value);
      InsertRepresentable(acc, members.name, v);
      FromMembersAreRepresentable(members.next, W.Insert(acc, members.name, v));
    }
  }

  lemma {:induction false} InsertRepresentable(entries: W.Entries, key: string, v: W.Value)
    requires RepresentableEntries(entries) && NulFree(key) && Representable(v)
    ensures RepresentableEntries(W.Insert(entries, key, v))
  {
    if entries.Entry? && !StringLess(key, entries.key) && key != entries.key {
      InsertRepresentable(entries.next, key, v);
    }
  }

  /** The text of every well-formed value parses, and a value comes back from its text, pretty or
      compact, exactly when it is representable. */
  lemma JsonRoundTripExactlyWhen(v: W.Value, pretty: bool)
    requires NoDoubles(v) && W.WellFormed(v)
    ensures FromJson(ToJson(v, pretty)) == Some(FromTree(ToTree(v)))
    ensures FromJson(ToJson(v, pretty)) == Some(v) <==> Representable(v)
  {
    var tree, text := ToTree(v), ToJson(v, pretty);
    TreeIsPrintable(v);
    PrintedIsVisible(tree, 0, pretty);
    SkipBlank([], text);
    assert [] + text == text && text + [] == text;
    ParsePrintValue(tree, 0, pretty, []);
    FromTreeIsRepresentable(tree);
    if Representable(v) {
      TreeRoundTrip(v);
    }
  }

  lemma Kept(v: W.Value, kept: W.Value, pretty: bool)
    requires NoDoubles(v) && W.WellFormed(v) && FromTree(ToTree(v)) == kept
    ensures FromJson(ToJson(v, pretty)) == Some(kept)
  {
    hide FromTree, ToTree, FromJson, ToJson;
    JsonRoundTripExactlyWhen(v, pretty);
  }

  /** Values that do not come back: undefined, an Integer of 41 bits, a Date, and a string with a NUL. */
  lemma NotAllComeBack(pretty: bool)
    ensures FromJson(ToJson(W.Undefined, pretty)) == Some(W.Invalid)
    ensures FromJson(ToJson(W.Integer(0x100_0000_0000), pretty)) == Some(W.Integer(0))
    ensures FromJson(ToJson(W.Date(5), pretty)) == Some(W.Integer(5))
    ensures FromJson(ToJson(W.String("a\0b"), pretty)) == Some(W.String("a"))
  {
    hide FromJson, ToJson;
    Kept(W.Undefined, W.Invalid, pretty);
    NumberKept(0x100_0000_0000);
    Kept(W.Integer(0x100_0000_0000), W.Integer(0), pretty);
    NumberKept(5);
    Kept(W.Date(5), W.Integer(5), pretty);
    assert "a\0b"[1..] == "\0b" && CStr("a\0b") == "a";
    Kept(W.String("a\0b"), W.String("a"), pretty);
  }

  lemma NumberKept(n: int)
    ensures FromNumber(W.Wrap32(n), 0) == W.Integer(W.Wrap32(n))
  {
  }

  // ---- Printed text is a C string ----

  lemma {:induction false} DecimalIsNulFree(n: nat)
    ensures NulFree(Decimal(n))
  {
    if n >= 10 {
      DecimalIsNulFree(n / 10);
    }
  }

  lemma {:induction false} EscapedIsNulFree(s: string)
    ensures NulFree(Escape(s, true))
  {
    if s != [] {
      EscapedIsNulFree(s[1..]);
    }
  }

  lemma {:induction false} TabsAreNulFree(n: int)
    ensures NulFree(Tabs(n))
  {
    if n > 0 {
      TabsAreNulFree(n - 1);
    }
  }

  lemma {:induction false} PrintIsNulFree(v: Json, depth: nat, fmt: bool)
    ensures NulFree(PrintValue(v, depth, fmt))
    decreases v
  {
    hide Decimal, Escape, Tabs;
    match v
    case Number(m, _) => DecimalIsNulFree(if m < 0 then -m else m);
    case Text(s) => EscapedIsNulFree(s);
    case Array(items) => ItemsAreNulFree(items, depth + 1, fmt);
    case Object(members) =>
      TabsAreNulFree(depth);
      TabsAreNulFree(depth - 1);
      MembersAreNulFree(members, depth + 1, fmt);
    case _ =>
  }

  lemma {:induction false} ItemsAreNulFree(items: Items, depth: nat, fmt: bool)
    ensures NulFree(PrintItems(items, depth, fmt))
    decreases items
  {
    hide PrintValue;
    if items.Item? {
      PrintIsNulFree(items.value, depth, fmt);
      ItemsAreNulFree(items.next, depth, fmt);
    }
  }

  lemma {:induction false} MembersAreNulFree(members: Members, depth: nat, fmt: bool)
    ensures NulFree(PrintMembers(members, depth, fmt))
    decreases members
  {
    hide PrintValue, Tabs, Escape;
    if members.Member? {
      TabsAreNulFree(depth);
      EscapedIsNulFree(members.name);
      PrintIsNulFree(members.value, depth, fmt);
      MembersAreNulFree(members.next, depth, fmt);
    }
  }

  // ---- The conversions as the loops that build lists, maps and children ----

  lemma LinkItem(before: seq<Json>, j: Json, last: Items)
    ensures LinkItems(before + [j], last) == LinkItems(before, Item(j, last))
  {
    assert (before + [j])[..|before|] == before;
  }

  lemma LinkMember(before: seq<(string, Json)>, name: string, j: Json, last: Members)
    ensures LinkMembers(before + [(name, j)], last) == LinkMembers(before, Member(name, j, last))
  {
    assert (before + [(name, j)])[..|before|] == before;
  }

  lemma LinkValue(before: seq<W.Value>, v: W.Value, last: W.Values)
    ensures C.Linked(before + [v], last) == C.Linked(before, W.More(v, last))
  {
    assert (before + [v])[..|before|] == before;
  }

  /** `fromCJSON` */
  method FromCJSON(json: Json) returns (v: W.Value)
    ensures v == FromTree(json)
    decreases json
  {
    match json
    case False => v := W.Boolean(false);
    case True => v := W.Boolean(true);
    case Null => v := W.Invalid;
    case Number(m, e) => v := FromNumber(m, e);
    case Text(s) => v := W.String(s);
    case Array(items) =>
      var values: seq<W.Value>, child := [], items;
      while child.Item?
        invariant C.Linked(values, FromItems(child)) == FromItems(items) && (child == items || child < items)
        decreases child
      {
        var value := FromCJSON(child.value);
        LinkValue(values, value, FromItems(child.next));
        values, child := values + [value], child.next;
      }
      v := W.List(C.Linked(values, W.NoValue));
    case Object(members) =>
      var values, child := W.NoEntry, members;
      while child.Member?
        invariant FromMembers(child, values) == FromMembers(members, W.NoEntry) && (child == members || child < members)
        decreases child
      {
        var value := FromCJSON(child.value);
        values, child := W.Insert(values, child.name, value), child.next;
      }
      v := W.Map(values);
  }

  /** `Value::toCJSON` */
  method ToCJSON(value: W.Value) returns (j: Json)
    requires NoDoubles(value)
    ensures j == ToTree(value)
    decreases value
  {
    match value
    case Boolean(b) => j := if b then True else False;
    case Date(time) => j := Number(W.Wrap32(time), 0);
    case Integer(n) => j := Number(W.Wrap32(n), 0);
    case String(s) => j := Text(CStr(s));
    case List(items) =>
      var children: seq<Json>, rest := [], items;
      while rest.More?
        invariant NoDoublesItems(rest) && (rest == items || rest < items)
        invariant LinkItems(children, ToItems(rest)) == ToItems(items)
        decreases rest
      {
        var child := ToCJSON(rest.value);
        LinkItem(children, child, ToItems(rest.next));
        children, rest := children + [child], rest.next;
      }
      j := Array(LinkItems(children, NoItem));
    case Map(entries) =>
      var children: seq<(string, Json)>, rest := [], entries;
      while rest.Entry?
        invariant NoDoublesEntries(rest) && (rest == entries || rest < entries)
        invariant LinkMembers(children, ToMembers(rest)) == ToMembers(entries)
        decreases rest
      {
        var child := ToCJSON(rest.value);
        LinkMember(children, CStr(rest.key), child, ToMembers(rest.next));
        children, rest := children + [(CStr(rest.key), child)], rest.next;
      }
      j := Object(LinkMembers(children, NoMember));
    case _ => j := Null;
  }

  /** `Value::toJSON` */
  method ToJSON(value: W.Value, pretty: bool) returns (text: string)
    requires NoDoubles(value) && W.WellFormed(value)
    ensures text == ToJson(value, pretty)
  {
    TreeIsPrintable(value);
    var json := ToCJSON(value);
    text := Print(json, 0, pretty);
  }

  /** `Value::fromJSON` on text none of whose escapes runs past its literal. */
  method FromJSON(json: string) returns (ret: W.Value, ok: bool)
    requires NulFree(json) && !ParseValue(Skip(json)).Overrun?
    ensures FromJson(json) == if ok then Some(ret) else None
    ensures !ok ==> ret == W.Invalid
  {
    var obj := Parse(json);
    if obj.Failed? {
      return W.Invalid, false;
    }
    ret := FromCJSON(obj.value);
    ok := true;
  }

  /** toJSON then fromJSON. */
  method ThereAndBack(value: W.Value, pretty: bool) returns (ret: W.Value, ok: bool)
    requires NoDoubles(value) && W.WellFormed(value)
    ensures ok && (ret == value <==> Representable(value))
  {
    var text := ToJSON(value, pretty);
    JsonRoundTripExactlyWhen(value, pretty);
    PrintIsNulFree(ToTree(value), 0, pretty);
    ret, ok := FromJSON(text);
  }
}
