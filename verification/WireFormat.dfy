/**
 The bytes of the binary encoding, and what the decoder does with bytes that encode nothing.
 */
module WireFormat {
  import opened Common
  import opened Wire

  // ---- Numbers ----

  /** The least significant byte comes first. */
  lemma FourBytes(n: nat)
    requires n < Two32
    ensures var s := U32(n);
            && s[0] as int == n % 0x100 && s[1] as int == n / 0x100 % 0x100
            && s[2] as int == n / 0x10000 % 0x100 && s[3] as int == n / 0x100_0000
  {
    var a, b, c := n / 0x100, n / 0x10000, n / 0x100_0000;
    assert a / 0x100 == b && b / 0x100 == c;
    LastByte(c);
    OneByte(b, 1);
    OneByte(a, 2);
    OneByte(n, 3);
    hide Octets;
  }

  lemma OneByte(n: nat, k: nat)
    ensures Octets(n, k + 1) == [Byte(n % 0x100)] + Octets(n / 0x100, k)
  {
  }

  lemma LastByte(n: nat)
    ensures Octets(n, 1) == [Byte(n % 0x100)]
  {
    OneByte(n, 0);
  }

  /** The low word of a 64-bit number in front of the high one. */
  lemma EightBytes(n: nat)
    ensures Octets(n, 8) == Octets(n, 4) + Octets(n / Two32, 4)
  {
    var a, b, c := n / 0x100, n / 0x10000, n / 0x100_0000;
    assert a / 0x100 == b && b / 0x100 == c && c / 0x100 == n / Two32;
    OneByte(n, 7);
    OneByte(a, 6);
    OneByte(b, 5);
    OneByte(c, 4);
    OneByte(n, 3);
    OneByte(a, 2);
    OneByte(b, 1);
    LastByte(c);
    hide Octets;
  }

  /** A negative number is written as its two's complement. */
  lemma SignedBytes(n: int)
    requires IsInt32(n)
    ensures I32(n) == U32(if n < 0 then n + Two32 else n)
  {
  }

  /** Wrapping keeps a number modulo the word size. */
  lemma WrapsModulo(n: int)
    ensures (Wrap32(n) - n) % Two32 == 0 && (Wrap64(n) - n) % Two64 == 0
  {
  }

  // ---- Values ----

  /** The kinds in the order of Value::Type. */
  ghost predicate IsKind(v: Value, k: nat) {
    match k
    case 0 => v.Invalid?
    case 1 => v.Undefined?
    case 2 => v.Boolean?
    case 3 => v.Integer?
    case 4 => v.Double?
    case 5 => v.String?
    case 6 => v.Custom?
    case 7 => v.Map?
    case 8 => v.List?
    case 9 => v.Date?
    case _ => false
  }

  lemma KindIsTag(v: Value, k: nat)
    requires IsKind(v, k)
    ensures Tag(v) == k < 10
  {
  }

  /** Every encoding begins with the number of its kind in four bytes. */
  lemma BeginsWithKind(v: Value, k: nat)
    requires IsKind(v, k)
    ensures |Encode(v)| >= 4 && Encode(v)[..4] == [k as char, '\0', '\0', '\0']
  {
    KindIsTag(v, k);
    FourBytes(k);
    assert I32(k) == U32(k) && U32(k) == [k as char, '\0', '\0', '\0'];
    hide U32, I32, Body, Tag, IsKind;
    assert Encode(v) == I32(k) + Body(v);
  }

  /** An unknown kind leaves the target as it was. */
  lemma UnknownKind(n: int, target: Value, rest: string)
    requires IsInt32(n) && !(0 <= n < 10)
    ensures Decode(I32(n) + rest, target) == Got(target, rest)
  {
    DecodeI32Encoded(n, rest);
    hide DecodeI32, I32;
  }

  /** Any byte but 0 is true. */
  lemma AnyBoolean(c: char, target: Value, rest: string)
    ensures Decode(I32(2) + ([c] + rest), target) == Got(Boolean(c != '\0'), rest)
  {
    DecodeI32Encoded(2, [c] + rest);
    TakeExactly([c], rest);
    hide DecodeI32, I32, Take;
  }

  // ---- Maps ----

  /** The map a chain of entries stands for. */
  function MapOf(entries: Entries): map<string, Value> {
    if entries.NoEntry? then map[] else MapOf(entries.next)[entries.key := entries.value]
  }

  lemma {:induction false} BelowAll(entries: Entries, key: string)
    requires Sorted(entries) && (entries.Entry? ==> StringLess(key, entries.key))
    ensures forall k | k in MapOf(entries) :: StringLess(key, k)
  {
    if entries.Entry? {
      if entries.next.Entry? {
        StringOrder(key, entries.key, entries.next.key);
      }
      BelowAll(entries.next, key);
    }
  }

  /** Inserting keeps the keys in order and is the update of the map: the last value of a key counts. */
  lemma {:induction false} InsertMeans(entries: Entries, key: string, v: Value)
    requires Sorted(entries)
    ensures Sorted(Insert(entries, key, v)) && MapOf(Insert(entries, key, v)) == MapOf(entries)[key := v]
    ensures Insert(entries, key, v).Entry?
    ensures Insert(entries, key, v).key == key || (entries.Entry? && Insert(entries, key, v).key == entries.key)
  {
    if entries.Entry? {
      StringOrder(key, entries.key, key);
      StringOrder(entries.key, key, entries.key);
      if StringLess(key, entries.key) {
      } else if key == entries.key {
      } else {
        InsertMeans(entries.next, key, v);
        var m := MapOf(entries.next);
        assert m[key := v][entries.key := entries.value] == m[entries.key := entries.value][key := v];
      }
    }
  }

  // ---- Decoding looks no further than it has to ----

  lemma TakeExtends(t: string, n: nat, more: string)
    requires Take(t, n).Got?
    ensures Take(t + more, n) == Got(Take(t, n).value, Take(t, n).rest + more)
  {
    assert (t + more)[..n] == t[..n] && (t + more)[n..] == t[n..] + more;
  }

  lemma U32Extends(t: string, more: string)
    requires DecodeU32(t).Got?
    ensures DecodeU32(t + more) == Got(DecodeU32(t).value, DecodeU32(t).rest + more)
    ensures DecodeI32(t + more) == Got(DecodeI32(t).value, DecodeI32(t).rest + more)
  {
    TakeExtends(t, 4, more);
    hide Take;
  }

  lemma StringExtends(t: string, more: string)
    requires DecodeString(t).Got?
    ensures DecodeString(t + more) == Got(DecodeString(t).value, DecodeString(t).rest + more)
  {
    U32Extends(t, more);
    hide DecodeU32;
    TakeExtends(DecodeU32(t).rest, DecodeU32(t).value, more);
    hide Take;
  }

  /** What is decoded of a text is decoded of every longer one, and the rest is longer by as much. */
  lemma {:induction false} DecodeExtends(t: string, target: Value, more: string)
    requires Decode(t, target).Got?
    ensures Decode(t + more, target) == Got(Decode(t, target).value, Decode(t, target).rest + more)
    decreases |t|, 0
  {
    U32Extends(t, more);
    var tag, t1 := DecodeI32(t).value, DecodeI32(t).rest;
    assert t1 == DecodeU32(t).rest;
    hide DecodeI32, Take, DecodeString, DecodeU32, DecodeItems, DecodeEntries;
    match tag
    case 2 => TakeExtends(t1, 1, more);
    case 3 => I32Extends(t1, more);
    case 4 => TakeExtends(t1, 8, more);
    case 5 => StringExtends(t1, more);
    case 7 =>
      U32Extends(t1, more);
      EntriesExtend(DecodeU32(t1).value, DecodeU32(t1).rest, NoEntry, Invalid, more);
    case 8 =>
      U32Extends(t1, more);
      ItemsExtend(DecodeU32(t1).value, DecodeU32(t1).rest, more);
    case 9 => TakeExtends(t1, 8, more);
    case _ =>
  }

  lemma I32Extends(t: string, more: string)
    requires DecodeI32(t).Got?
    ensures DecodeI32(t + more) == Got(DecodeI32(t).value, DecodeI32(t).rest + more)
  {
    U32Extends(t, more);
  }

  lemma {:induction false} ItemsExtend(n: nat, t: string, more: string)
    requires DecodeItems(n, t).Got?
    ensures DecodeItems(n, t + more) == Got(DecodeItems(n, t).value, DecodeItems(n, t).rest + more)
    decreases |t|, n + 1
  {
    hide Decode;
    if n > 0 {
      DecodeExtends(t, Invalid, more);
      ItemsExtend(n - 1, Decode(t, Invalid).rest, more);
    }
  }

  lemma {:induction false} EntriesExtend(n: nat, t: string, acc: Entries, value: Value, more: string)
    requires DecodeEntries(n, t, acc, value).Got?
    ensures DecodeEntries(n, t + more, acc, value)
         == Got(DecodeEntries(n, t, acc, value).value, DecodeEntries(n, t, acc, value).rest + more)
    decreases |t|, n + 1
  {
    hide Decode, DecodeString, Insert;
    if n > 0 {
      StringExtends(t, more);
      var k := DecodeString(t);
      DecodeExtends(k.rest, value, more);
      var v := Decode(k.rest, value);
      EntriesExtend(n - 1, v.rest, Insert(acc, k.value, v.value), v.value, more);
    }
  }

  /** Part of an encoding is not decoded to anything. */
  lemma PartIsShort(v: Value, target: Value, k: nat)
    requires WellFormed(v) && k < |Encode(v)|
    ensures Decode(Encode(v)[..k], target).Short?
  {
    hide Decode, Encode, WellFormed, ReadBack;
    var a, b := Encode(v)[..k], Encode(v)[k..];
    SplitAt(Encode(v), k);
    assert Encode(v) + [] == Encode(v) && b != [];
    DecodeEncoded(v, target, []);
    if Decode(a, target).Got? {
      DecodeExtends(a, target, b);
      assert false;
    }
  }
}
