/**
 Values and their binary encoding (rct/Value.h, rct/Serializer.h), little-endian.
 Bytes are characters below 256.
 */
module Wire {
  import opened Common

  /** A Value.  Lists are chains; a map is the chain of its entries in key order, which is the order
      std::map keeps and iterates in.  Integers hold up to 64 bits, as the constructors from long and
      long long store them; doubles are eight uninterpreted bytes, dates 64-bit counts; what a Custom
      holds does not matter because it is never encoded. */
  datatype Value =
    | Invalid
    | Undefined
    | Boolean(b: bool)
    | Integer(n: int)
    | Double(bytes: string)
    | String(s: string)
    | Custom
    | Map(entries: Entries)
    | List(items: Values)
    | Date(time: int)

  datatype Values = NoValue | More(value: Value, next: Values) {
    function Size(): nat { if NoValue? then 0 else 1 + next.Size() }
  }

  datatype Entries = NoEntry | Entry(key: string, value: Value, next: Entries) {
    function Size(): nat { if NoEntry? then 0 else 1 + next.Size() }
  }

  /** Value::Type */
  function Tag(v: Value): (t: nat)
    ensures t < 10
  {
    match v
    case Invalid => 0
    case Undefined => 1
    case Boolean(_) => 2
    case Integer(_) => 3
    case Double(_) => 4
    case String(_) => 5
    case Custom => 6
    case Map(_) => 7
    case List(_) => 8
    case Date(_) => 9
  }

  // ---- Native types ----

  /** The low `k` bytes of `n`, least significant first. */
  function Octets(n: nat, k: nat): (s: string)
    ensures |s| == k
  {
    if k == 0 then [] else [Byte(n % 256)] + Octets(n / 256, k - 1)
  }

  function FromOctets(s: string): nat {
    if s == [] then 0 else s[0] as int + 256 * FromOctets(s[1..])
  }

  function Pow256(k: nat): nat {
    if k == 0 then 1 else 256 * Pow256(k - 1)
  }

  lemma {:induction false} OctetsRoundTrip(n: nat, k: nat)
    requires n < Pow256(k)
    ensures FromOctets(Octets(n, k)) == n
  {
    if k > 0 {
      OctetsRoundTrip(n / 256, k - 1);
    }
  }

  const Two32: nat := 0x1_0000_0000
  const Two64: nat := 0x1_0000_0000_0000_0000

  predicate IsInt64(n: int) { -0x8000_0000_0000_0000 <= n < 0x8000_0000_0000_0000 }

  /** Two's complement. */
  function Wrap32(n: int): (r: int)
    ensures IsInt32(r) && (IsInt32(n) ==> r == n)
  {
    var m := n % Two32; if m < 0x8000_0000 then m else m - Two32
  }

  function Wrap64(n: int): (r: int)
    ensures IsInt64(r) && (IsInt64(n) ==> r == n)
  {
    var m := n % Two64; if m < 0x8000_0000_0000_0000 then m else m - Two64
  }

  function U32(n: nat): (s: string)
    ensures |s| == 4
  {
    Octets(n, 4)
  }

  function I32(n: int): (s: string)
    ensures |s| == 4
  {
    Octets(n % Two32, 4)
  }

  function I64(n: int): (s: string)
    ensures |s| == 8
  {
    Octets(n % Two64, 8)
  }

  // ---- Encoding ----

  /** `operator<<` for a Value. */
  function Encode(v: Value): string
    decreases v, 1
  {
    I32(Tag(v)) + Body(v)
  }

  /** What stands behind the tag; integers go through `toInteger`, which keeps 32 bits. */
  function Body(v: Value): string
    decreases v, 0
  {
    match v
    case Boolean(b) => [Byte(if b then 1 else 0)]
    case Integer(n) => I32(Wrap32(n))
    case Double(bytes) => bytes
    case String(s) => EncodeString(s)
    case Map(entries) => U32(entries.Size()) + EncodeEntries(entries)
    case List(items) => U32(items.Size()) + EncodeItems(items)
    case Date(time) => I64(time)
    case _ => []
  }

  function EncodeString(s: string): string { U32(|s|) + s }

  function EncodeItems(items: Values): string {
    if items.NoValue? then [] else Encode(items.value) + EncodeItems(items.next)
  }

  function EncodeEntries(entries: Entries): string {
    if entries.NoEntry? then []
    else EncodeString(entries.key) + Encode(entries.value) + EncodeEntries(entries.next)
  }

  // ---- Decoding ----

  /** `Short`: the data end before the value does, the deserializer's assertion. */
  datatype Decoded<+T> = Short | Got(value: T, rest: string)

  function Take(t: string, n: nat): (r: Decoded<string>)
    ensures r.Got? ==> |r.value| == n && |r.rest| + n == |t|
  {
    if |t| < n then Short else Got(t[..n], t[n..])
  }

  function DecodeU32(t: string): (r: Decoded<nat>)
    ensures r.Got? ==> |r.rest| + 4 == |t|
  {
    var r := Take(t, 4);
    if r.Got? then Got(FromOctets(r.value), r.rest) else Short
  }

  function DecodeI32(t: string): (r: Decoded<int>)
    ensures r.Got? ==> |r.rest| + 4 == |t|
  {
    var r := DecodeU32(t);
    if r.Got? then Got(Wrap32(r.value), r.rest) else Short
  }

  function DecodeString(t: string): (r: Decoded<string>)
    ensures r.Got? ==> |r.rest| < |t|
  {
    var r := DecodeU32(t);
    if r.Got? then Take(r.rest, r.value) else Short
  }

  /** `operator>>` for a Value, which leaves its target alone when the tag is unknown. */
  function Decode(t: string, target: Value): (r: Decoded<Value>)
    ensures r.Got? ==> |r.rest| < |t|
    decreases |t|, 0
  {
    var tag := DecodeI32(t);
    if tag.Short? then Short
    else
      var t := tag.rest;
      match tag.value
      case 0 => Got(Invalid, t)
      case 1 => Got(Undefined, t)
      case 2 => var r := Take(t, 1); if r.Got? then Got(Boolean(r.value[0] != '\0'), r.rest) else Short
      case 3 => var r := DecodeI32(t); if r.Got? then Got(Integer(r.value), r.rest) else Short
      case 4 => var r := Take(t, 8); if r.Got? then Got(Double(r.value), r.rest) else Short
      case 5 => var r := DecodeString(t); if r.Got? then Got(String(r.value), r.rest) else Short
      case 6 => Got(Invalid, t)
      case 7 =>
        var n := DecodeU32(t);
        if n.Short? then Short
        else
          var r := DecodeEntries(n.value, n.rest, NoEntry, Invalid);
          if r.Got? then Got(Map(r.value), r.rest) else Short
      case 8 =>
        var n := DecodeU32(t);
        if n.Short? then Short
        else var r := DecodeItems(n.value, n.rest); if r.Got? then Got(List(r.value), r.rest) else Short
      case 9 => var r := Take(t, 8); if r.Got? then Got(Integer(Wrap64(FromOctets(r.value))), r.rest) else Short
      case _ => Got(target, t)
  }

  /** The elements of a list resized to `n` fresh values. */
  function DecodeItems(n: nat, t: string): (r: Decoded<Values>)
    ensures r.Got? ==> |r.rest| <= |t|
    decreases |t|, n + 1
  {
    if n == 0 then Got(NoValue, t)
    else
      var v := Decode(t, Invalid);
      if v.Short? then Short
      else var r := DecodeItems(n - 1, v.rest); if r.Got? then Got(More(v.value, r.value), r.rest) else Short
  }

  /** `map[key] = value` */
  function Insert(entries: Entries, key: string, v: Value): Entries {
    if entries.NoEntry? || StringLess(key, entries.key) then Entry(key, v, entries)
    else if key == entries.key then entries.(value := v)
    else entries.(next := Insert(entries.next, key, v))
  }

  /** The entries of a map; one variable receives all the values in turn. */
  function DecodeEntries(n: nat, t: string, acc: Entries, value: Value): (r: Decoded<Entries>)
    ensures r.Got? ==> |r.rest| <= |t|
    decreases |t|, n + 1
  {
    if n == 0 then Got(acc, t)
    else
      var k := DecodeString(t);
      if k.Short? then Short
      else
        var v := Decode(k.rest, value);
        if v.Short? then Short
        else DecodeEntries(n - 1, v.rest, Insert(acc, k.value, v.value), v.value)
  }

  // ---- Decoding undoes encoding ----

  ghost predicate Sorted(entries: Entries) {
    entries.Entry? && entries.next.Entry? ==> StringLess(entries.key, entries.next.key) && Sorted(entries.next)
  }

  /** The values that can exist: 64-bit integers and dates, sizes of 32 bits, ordered maps. */
  ghost predicate WellFormed(v: Value) {
    match v
    case Integer(n) => IsInt64(n)
    case Double(bytes) => |bytes| == 8
    case String(s) => |s| < Two32
    case Map(entries) => entries.Size() < Two32 && Sorted(entries) && WellFormedEntries(entries)
    case List(items) => items.Size() < Two32 && WellFormedItems(items)
    case Date(time) => IsInt64(time)
    case _ => true
  }

  ghost predicate WellFormedItems(items: Values) {
    items.More? ==> WellFormed(items.value) && WellFormedItems(items.next)
  }

  ghost predicate WellFormedEntries(entries: Entries) {
    entries.Entry? ==> |entries.key| < Two32 && WellFormed(entries.value) && WellFormedEntries(entries.next)
  }

  /** What a value reads back as: an Integer with its low 32 bits, a Date as the Integer of its whole
      count, a Custom as Invalid. */
  function ReadBack(v: Value): Value {
    match v
    case Map(entries) => Map(ReadBackEntries(entries))
    case List(items) => List(ReadBackItems(items))
    case Integer(n) => Integer(Wrap32(n))
    case Date(time) => Integer(time)
    case Custom => Invalid
    case _ => v
  }

  function ReadBackItems(items: Values): Values {
    if items.NoValue? then NoValue else More(ReadBack(items.value), ReadBackItems(items.next))
  }

  function ReadBackEntries(entries: Entries): Entries {
    if entries.NoEntry? then NoEntry else Entry(entries.key, ReadBack(entries.value), ReadBackEntries(entries.next))
  }

  lemma TakeExactly(s: string, rest: string)
    ensures Take(s + rest, |s|) == Got(s, rest)
  {
  }

  lemma Pow4()
    ensures Pow256(4) == Two32 && Pow256(8) == Two64
  {
    assert Pow256(3) == 0x100_0000;
    assert Pow256(6) == 0x1_0000_0000_0000;
  }

  lemma DecodeU32Encoded(n: nat, rest: string)
    requires n < Two32
    ensures DecodeU32(U32(n) + rest) == Got(n, rest)
  {
    Pow4();
    OctetsRoundTrip(n, 4);
    TakeExactly(U32(n), rest);
  }

  lemma DecodeI32Encoded(n: int, rest: string)
    requires IsInt32(n)
    ensures DecodeI32(I32(n) + rest) == Got(n, rest)
  {
    assert I32(n) == U32(n % Two32);
    DecodeU32Encoded(n % Two32, rest);
    assert (n % Two32) % Two32 == n % Two32;
  }

  lemma DecodeStringEncoded(s: string, rest: string)
    requires |s| < Two32
    ensures DecodeString(EncodeString(s) + rest) == Got(s, rest)
  {
    Assoc(U32(|s|), s, rest);
    DecodeU32Encoded(|s|, s + rest);
    TakeExactly(s, rest);
  }

  lemma WrapUndone(n: int)
    requires IsInt64(n)
    ensures Wrap64(n % Two64) == n
  {
  }

  /** A 64-bit count survives its eight bytes. */
  lemma DateEncoded(time: int)
    requires IsInt64(time)
    ensures Wrap64(FromOctets(I64(time))) == time
  {
    hide Wrap64, FromOctets, Octets;
    Pow4();
    OctetsRoundTrip(time % Two64, 8);
    WrapUndone(time);
  }

  /** Behind the tag, what a scalar decodes to. */
  lemma DecodeScalar(v: Value, target: Value, rest: string)
    requires WellFormed(v) && !v.Map? && !v.List?
    ensures Decode(Encode(v) + rest, target) == Got(ReadBack(v), rest)
  {
    var body := Body(v);
    Assoc(I32(Tag(v)), body, rest);
    DecodeI32Encoded(Tag(v), body + rest);
    TakeExactly(body, rest);
    assert body == [] ==> body + rest == rest;
    if v.Integer? { DecodeI32Encoded(Wrap32(v.n), rest); }
    if v.String? { DecodeStringEncoded(v.s, rest); }
    if v.Date? { DateEncoded(v.time); }
  }

  function Concat(a: Entries, b: Entries): Entries {
    if a.NoEntry? then b else a.(next := Concat(a.next, b))
  }

  ghost predicate AllBelow(entries: Entries, key: string) {
    entries.Entry? ==> StringLess(entries.key, key) && AllBelow(entries.next, key)
  }

  /** Inserting a key behind all others appends it. */
  lemma {:induction false} InsertLast(entries: Entries, key: string, v: Value)
    requires AllBelow(entries, key)
    ensures Insert(entries, key, v) == Concat(entries, Entry(key, v, NoEntry))
  {
    if entries.Entry? {
      StringOrder(entries.key, key, key);
      InsertLast(entries.next, key, v);
    }
  }

  lemma {:induction false} ConcatOne(a: Entries, key: string, v: Value, b: Entries)
    ensures Concat(Concat(a, Entry(key, v, NoEntry)), b) == Concat(a, Entry(key, v, b))
  {
    if a.Entry? {
      ConcatOne(a.next, key, v, b);
    }
  }

  lemma {:induction false} BelowNext(a: Entries, key: string, v: Value, key': string)
    requires AllBelow(a, key) && StringLess(key, key')
    ensures AllBelow(Concat(a, Entry(key, v, NoEntry)), key')
  {
    if a.Entry? {
      StringOrder(a.key, key, key');
      BelowNext(a.next, key, v, key');
    }
  }

  lemma {:induction false} ConcatNothing(a: Entries)
    ensures Concat(a, NoEntry) == a
  {
    if a.Entry? {
      ConcatNothing(a.next);
    }
  }

  /** Decoding undoes encoding, up to long integers, dates and customs, and stops exactly behind the value. */
  lemma {:induction false} DecodeEncoded(v: Value, target: Value, rest: string)
    requires WellFormed(v)
    ensures Decode(Encode(v) + rest, target) == Got(ReadBack(v), rest)
    decreases v, 0
  {
    hide Decode, Encode;
    match v
    case Map(entries) =>
      DecodeEncodedEntries(entries, NoEntry, Invalid, rest);
      MapDecodes(entries, target, rest);
    case List(items) =>
      DecodeEncodedItems(items, rest);
      ListDecodes(items, target, rest);
    case _ => DecodeScalar(v, target, rest);
  }

  /** A size and what it counts behind a tag, as they are read from the front. */
  lemma SizedText(tag: nat, n: nat, body: string, rest: string)
    requires tag < 10 && n < Two32
    ensures var t := I32(tag) + (U32(n) + body) + rest;
            DecodeI32(t) == Got(tag, U32(n) + (body + rest)) && DecodeU32(U32(n) + (body + rest)) == Got(n, body + rest)
  {
    hide DecodeI32, DecodeU32, I32, U32;
    Assoc(I32(tag), U32(n) + body, rest);
    Assoc(U32(n), body, rest);
    DecodeI32Encoded(tag, U32(n) + (body + rest));
    DecodeU32Encoded(n, body + rest);
  }

  lemma DecodeList(t: string, s: string, n: nat, u: string, target: Value)
    requires DecodeI32(t) == Got(8, s) && DecodeU32(s) == Got(n, u)
    ensures Decode(t, target) == var r := DecodeItems(n, u); if r.Got? then Got(List(r.value), r.rest) else Short
  {
    hide DecodeItems, DecodeEntries, DecodeI32, DecodeU32, DecodeString, Take;
  }

  lemma DecodeMap(t: string, s: string, n: nat, u: string, target: Value)
    requires DecodeI32(t) == Got(7, s) && DecodeU32(s) == Got(n, u)
    ensures var r := DecodeEntries(n, u, NoEntry, Invalid);
            Decode(t, target) == if r.Got? then Got(Map(r.value), r.rest) else Short
  {
    hide DecodeItems, DecodeEntries, DecodeI32, DecodeU32, DecodeString, Take;
  }

  lemma ListDecodes(items: Values, target: Value, rest: string)
    requires items.Size() < Two32
    requires DecodeItems(items.Size(), EncodeItems(items) + rest) == Got(ReadBackItems(items), rest)
    ensures Decode(Encode(List(items)) + rest, target) == Got(List(ReadBackItems(items)), rest)
  {
    var n, body := items.Size(), EncodeItems(items);
    assert Encode(List(items)) == I32(8) + (U32(n) + body);
    hide *;
    SizedText(8, n, body, rest);
    DecodeList(I32(8) + (U32(n) + body) + rest, U32(n) + (body + rest), n, body + rest, target);
  }

  lemma MapDecodes(entries: Entries, target: Value, rest: string)
    requires entries.Size() < Two32
    requires DecodeEntries(entries.Size(), EncodeEntries(entries) + rest, NoEntry, Invalid) == Got(ReadBackEntries(entries), rest)
    ensures Decode(Encode(Map(entries)) + rest, target) == Got(Map(ReadBackEntries(entries)), rest)
  {
    var n, body := entries.Size(), EncodeEntries(entries);
    assert Encode(Map(entries)) == I32(7) + (U32(n) + body);
    hide *;
    SizedText(7, n, body, rest);
    DecodeMap(I32(7) + (U32(n) + body) + rest, U32(n) + (body + rest), n, body + rest, target);
  }

  lemma {:induction false} DecodeEncodedItems(items: Values, rest: string)
    requires WellFormedItems(items)
    ensures DecodeItems(items.Size(), EncodeItems(items) + rest) == Got(ReadBackItems(items), rest)
    decreases items, 0
  {
    hide Decode, Encode, WellFormed;
    if items.NoValue? {
      assert [] + rest == rest;
    } else {
      Assoc(Encode(items.value), EncodeItems(items.next), rest);
      DecodeEncoded(items.value, Invalid, EncodeItems(items.next) + rest);
      DecodeEncodedItems(items.next, rest);
    }
  }

  lemma EntriesStep(n: nat, t: string, acc: Entries, value: Value)
    requires n > 0
    ensures var k := DecodeString(t);
            DecodeEntries(n, t, acc, value) ==
              if k.Short? || Decode(k.rest, value).Short? then Short
              else var v := Decode(k.rest, value); DecodeEntries(n - 1, v.rest, Insert(acc, k.value, v.value), v.value)
  {
  }

  lemma EntriesEnd(t: string, acc: Entries, value: Value)
    ensures DecodeEntries(0, t, acc, value) == Got(acc, t)
  {
  }

  lemma {:induction false} DecodeEncodedEntries(entries: Entries, acc: Entries, value: Value, rest: string)
    requires WellFormedEntries(entries) && Sorted(entries) && (entries.Entry? ==> AllBelow(acc, entries.key))
    ensures DecodeEntries(entries.Size(), EncodeEntries(entries) + rest, acc, value)
         == Got(Concat(acc, ReadBackEntries(entries)), rest)
    decreases entries, 0
  {
    hide Decode, Encode, WellFormed, DecodeString, EncodeString, Insert, AllBelow, StringLess, Concat, DecodeEntries;
    if entries.NoEntry? {
      ConcatNothing(acc);
      assert [] + rest == rest;
      EntriesEnd(rest, acc, value);
    } else {
      var key, v, v' := entries.key, entries.value, ReadBack(entries.value);
      var tail := EncodeEntries(entries.next) + rest;
      Assoc(EncodeString(key) + Encode(v), EncodeEntries(entries.next), rest);
      Assoc(EncodeString(key), Encode(v), tail);
      DecodeStringEncoded(key, Encode(v) + tail);
      DecodeEncoded(v, value, tail);
      EntriesStep(entries.Size(), EncodeString(key) + (Encode(v) + tail), acc, value);
      InsertLast(acc, key, v');
      var acc' := Concat(acc, Entry(key, v', NoEntry));
      if entries.next.Entry? {
        BelowNext(acc, key, v', entries.next.key);
      }
      DecodeEncodedEntries(entries.next, acc', v', rest);
      ConcatOne(acc, key, v', ReadBackEntries(entries.next));
    }
  }

  /** Neither a Date, a Custom nor an Integer of more than 32 bits anywhere inside. */
  predicate Faithful(v: Value) {
    match v
    case Map(entries) => FaithfulEntries(entries)
    case List(items) => FaithfulItems(items)
    case Integer(n) => IsInt32(n)
    case Date(_) => false
    case Custom => false
    case _ => true
  }

  predicate FaithfulItems(items: Values) {
    items.More? ==> Faithful(items.value) && FaithfulItems(items.next)
  }

  predicate FaithfulEntries(entries: Entries) {
    entries.Entry? ==> Faithful(entries.value) && FaithfulEntries(entries.next)
  }

  lemma {:induction false} ReadBackIsSame(v: Value)
    ensures ReadBack(v) == v <==> Faithful(v)
    decreases v, 0
  {
    match v
    case Map(entries) => ReadBackEntriesAreSame(entries);
    case List(items) => ReadBackItemsAreSame(items);
    case _ =>
  }

  lemma {:induction false} ReadBackItemsAreSame(items: Values)
    ensures ReadBackItems(items) == items <==> FaithfulItems(items)
    decreases items, 0
  {
    if items.More? {
      ReadBackIsSame(items.value);
      ReadBackItemsAreSame(items.next);
    }
  }

  lemma {:induction false} ReadBackEntriesAreSame(entries: Entries)
    ensures ReadBackEntries(entries) == entries <==> FaithfulEntries(entries)
    decreases entries, 0
  {
    if entries.Entry? {
      ReadBackIsSame(entries.value);
      ReadBackEntriesAreSame(entries.next);
    }
  }

  /** A value survives the round trip exactly when no Date, no Custom and no Integer of more than 32
      bits occurs in it. */
  lemma RoundTripExactlyWhen(v: Value, target: Value, rest: string)
    requires WellFormed(v)
    ensures Decode(Encode(v) + rest, target) == Got(v, rest) <==> Faithful(v)
  {
    DecodeEncoded(v, target, rest);
    ReadBackIsSame(v);
  }

  /** Values that do not come back: an Integer of 41 bits, a Date and a Custom. */
  lemma NotAllComeBack(target: Value, rest: string)
    ensures Decode(Encode(Integer(0x100_0000_0000)) + rest, target) == Got(Integer(0), rest)
    ensures Decode(Encode(Date(5)) + rest, target) == Got(Integer(5), rest)
    ensures Decode(Encode(Custom) + rest, target) == Got(Invalid, rest)
  {
    DecodeEncoded(Integer(0x100_0000_0000), target, rest);
    DecodeEncoded(Date(5), target, rest);
    DecodeEncoded(Custom, target, rest);
  }
}
