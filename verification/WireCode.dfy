/**
 The stream operators of rct/Serializer.h and rct/Value.h: a serializer that appends to its string
 buffer and a deserializer that advances its read position.
 */
module WireCode {
  import opened Common
  import opened Wire

  /** Serializer over a StringBuffer, whose writes cannot fail. */
  class Serializer {
    var out: string

    constructor ()
      ensures out == []
    {
      out := [];
    }

    method WriteString(s: string)
      requires |s| < Two32
      modifies this
      ensures out == old(out) + EncodeString(s)
    {
      out := out + U32(|s|);
      if |s| > 0 {
        out := out + s;
      }
    }

    /** `operator<<` for a Value; writing a Custom only reports an error. */
    method WriteValue(v: Value)
      requires WellFormed(v)
      modifies this
      ensures out == old(out) + Encode(v)
      decreases v, 1
    {
      hide EncodeString, EncodeItems, EncodeEntries, U32, I32, I64, Wrap32;
      Assoc(out, I32(Tag(v)), Body(v));
      out := out + I32(Tag(v));
      match v
      case Date(time) => out := out + I64(time);
      case Integer(n) => out := out + I32(Wrap32(n));
      case Double(bytes) => out := out + bytes;
      case Boolean(b) => out := out + [Byte(if b then 1 else 0)];
      case String(s) => WriteString(s);
      case Map(entries) =>
        Assoc(out, U32(entries.Size()), EncodeEntries(entries));
        WriteMap(entries);
      case List(items) =>
        Assoc(out, U32(items.Size()), EncodeItems(items));
        WriteList(items);
      case _ =>
        assert out + [] == out;
    }

    method WriteList(items: Values)
      requires WellFormedItems(items) && items.Size() < Two32
      modifies this
      ensures out == old(out) + U32(items.Size()) + EncodeItems(items)
      decreases items, 0
    {
      out := out + U32(items.Size());
      ghost var total := out + EncodeItems(items);
      var rest := items;
      while rest.More?
        invariant WellFormedItems(rest) && (rest == items || rest < items)
        invariant out + EncodeItems(rest) == total
        decreases rest
      {
        Assoc(out, Encode(rest.value), EncodeItems(rest.next));
        WriteValue(rest.value);
        rest := rest.next;
      }
      assert out + [] == out;
    }

    method WriteMap(entries: Entries)
      requires WellFormedEntries(entries) && entries.Size() < Two32
      modifies this
      ensures out == old(out) + U32(entries.Size()) + EncodeEntries(entries)
      decreases entries, 0
    {
      out := out + U32(entries.Size());
      ghost var total := out + EncodeEntries(entries);
      var rest := entries;
      while rest.Entry?
        invariant WellFormedEntries(rest) && (rest == entries || rest < entries)
        invariant out + EncodeEntries(rest) == total
        decreases rest
      {
        var key := rest.key;
        Assoc(EncodeString(key), Encode(rest.value), EncodeEntries(rest.next));
        Assoc(out, EncodeString(key), Encode(rest.value) + EncodeEntries(rest.next));
        WriteString(key);
        Assoc(out, Encode(rest.value), EncodeEntries(rest.next));
        WriteValue(rest.value);
        rest := rest.next;
      }
      assert out + [] == out;
    }
  }

  /** Deserializer over a block of data. */
  class Deserializer {
    const data: string
    var pos: nat

    ghost predicate Valid()
      reads this
    {
      pos <= |data|
    }

    /** The bytes not yet read. */
    function Rest(): string
      requires Valid()
      reads this
    {
      data[pos..]
    }

    constructor (data: string)
      ensures Valid() && this.data == data && Rest() == data
    {
      this.data := data;
      pos := 0;
    }

    /** `read`: false where the source's assertion fails. */
    method Read(len: nat) returns (ok: bool, bytes: string)
      requires Valid()
      modifies this
      ensures Valid()
      ensures ok == Take(old(Rest()), len).Got?
      ensures ok ==> Got(bytes, Rest()) == Take(old(Rest()), len)
    {
      if pos + len > |data| {
        return false, [];
      }
      ok, bytes := true, data[pos..pos + len];
      assert data[pos..][..len] == bytes && data[pos..][len..] == data[pos + len..];
      pos := pos + len;
    }

    method ReadI32() returns (ok: bool, n: int)
      requires Valid()
      modifies this
      ensures Valid()
      ensures ok == DecodeI32(old(Rest())).Got?
      ensures ok ==> Got(n, Rest()) == DecodeI32(old(Rest()))
    {
      var bytes;
      ok, bytes := Read(4);
      n := if ok then Wrap32(FromOctets(bytes)) else 0;
    }

    method ReadU32() returns (ok: bool, n: nat)
      requires Valid()
      modifies this
      ensures Valid()
      ensures ok == DecodeU32(old(Rest())).Got?
      ensures ok ==> Got(n, Rest()) == DecodeU32(old(Rest()))
    {
      var bytes;
      ok, bytes := Read(4);
      n := if ok then FromOctets(bytes) else 0;
    }

    method ReadString() returns (ok: bool, s: string)
      requires Valid()
      modifies this
      ensures Valid()
      ensures ok == DecodeString(old(Rest())).Got?
      ensures ok ==> Got(s, Rest()) == DecodeString(old(Rest()))
    {
      var size;
      s := [];
      ok, size := ReadU32();
      if ok && size > 0 {
        ok, s := Read(size);
      }
    }

    /** `operator>>` for a Value. */
    method ReadValue(target: Value) returns (ok: bool, v: Value)
      requires Valid()
      modifies this
      ensures Valid()
      ensures ok == Decode(old(Rest()), target).Got?
      ensures ok ==> Got(v, Rest()) == Decode(old(Rest()), target)
      decreases |Rest()|, 0
    {
      hide Take, DecodeU32, DecodeI32, DecodeString, DecodeItems, DecodeEntries;
      v := target;
      var tag;
      ok, tag := ReadI32();
      if !ok {
        return;
      }
      if tag == 9 {
        var bytes;
        ok, bytes := Read(8);
        if ok { v := Integer(Wrap64(FromOctets(bytes))); }
      } else if tag == 3 {
        var n;
        ok, n := ReadI32();
        v := Integer(n);
      } else if tag == 4 {
        var bytes;
        ok, bytes := Read(8);
        v := Double(bytes);
      } else if tag == 2 {
        var bytes;
        ok, bytes := Read(1);
        TakeOne();
        if ok { v := Boolean(bytes[0] != '\0'); }
      } else if tag == 5 {
        var s;
        ok, s := ReadString();
        v := String(s);
      } else if tag == 7 {
        var entries;
        ok, entries := ReadMap();
        v := Map(entries);
      } else if tag == 8 {
        var items;
        ok, items := ReadList();
        v := List(items);
      } else if tag == 6 || tag == 0 {
        v := Invalid;
      } else if tag == 1 {
        v := Undefined;
      }
    }

    lemma TakeOne()
      ensures forall t :: Take(t, 1).Got? ==> |Take(t, 1).value| == 1
    {
    }

    /** The list operator into a fresh list. */
    method ReadList() returns (ok: bool, items: Values)
      requires Valid()
      modifies this
      ensures Valid()
      ensures var n := DecodeU32(old(Rest()));
              && ok == (n.Got? && DecodeItems(n.value, n.rest).Got?)
              && (ok ==> Got(items, Rest()) == DecodeItems(n.value, n.rest))
      decreases |Rest()|, 1
    {
      hide Decode, DecodeItems, DecodeU32, Chain, Linked;
      items := NoValue;
      var size;
      ok, size := ReadU32();
      if !ok {
        return;
      }
      ghost var all := DecodeItems(size, Rest());
      var list := [];
      ChainNothing(all);
      for i := 0 to size
        invariant Valid() && |list| == i && |Rest()| < |old(Rest())|
        invariant Chain(list, DecodeItems(size - i, Rest())) == all
      {
        ItemsStep(list, size - i, Rest());
        var v;
        ok, v := ReadValue(Invalid);
        if !ok {
          return;
        }
        list := list + [v];
      }
      ItemsEnd(list, Rest());
      ok, items := true, Linked(list, NoValue);
    }

    method ReadMap() returns (ok: bool, entries: Entries)
      requires Valid()
      modifies this
      ensures Valid()
      ensures var n := DecodeU32(old(Rest()));
              && ok == (n.Got? && DecodeEntries(n.value, n.rest, NoEntry, Invalid).Got?)
              && (ok ==> Got(entries, Rest()) == DecodeEntries(n.value, n.rest, NoEntry, Invalid))
      decreases |Rest()|, 1
    {
      hide Decode, DecodeString, DecodeEntries, DecodeU32, Insert;
      entries := NoEntry;
      var size;
      ok, size := ReadU32();
      if !ok {
        return;
      }
      ghost var all := DecodeEntries(size, Rest(), NoEntry, Invalid);
      var value := Invalid;
      for i := 0 to size
        invariant Valid() && |Rest()| < |old(Rest())|
        invariant DecodeEntries(size - i, Rest(), entries, value) == all
      {
        EntriesStep(size - i, Rest(), entries, value);
        var key;
        ok, key := ReadString();
        if !ok {
          return;
        }
        ok, value := ReadValue(value);
        if !ok {
          return;
        }
        entries := Insert(entries, key, value);
      }
      EntriesEnd(Rest(), entries, value);
      ok := true;
    }
  }

  /** The values read so far in front of the outcome of the remaining ones. */
  function Chain(before: seq<Value>, r: Decoded<Values>): Decoded<Values>
    decreases |before|
  {
    if before == [] || r.Short? then r
    else Chain(before[..|before| - 1], Got(More(before[|before| - 1], r.value), r.rest))
  }

  function Linked(before: seq<Value>, last: Values): Values
    decreases |before|
  {
    if before == [] then last else Linked(before[..|before| - 1], More(before[|before| - 1], last))
  }

  lemma ChainNothing(r: Decoded<Values>)
    ensures Chain([], r) == r
  {
  }

  lemma ItemsStep(before: seq<Value>, n: nat, t: string)
    requires n > 0
    ensures var v := Decode(t, Invalid);
            Chain(before, DecodeItems(n, t)) == if v.Short? then Short else Chain(before + [v.value], DecodeItems(n - 1, v.rest))
  {
    var v := Decode(t, Invalid);
    if v.Got? {
      assert (before + [v.value])[..|before|] == before;
    }
  }

  lemma {:induction false} ChainDone(before: seq<Value>, last: Values, rest: string)
    ensures Chain(before, Got(last, rest)) == Got(Linked(before, last), rest)
    decreases |before|
  {
    if before != [] {
      ChainDone(before[..|before| - 1], More(before[|before| - 1], last), rest);
    }
  }

  lemma ItemsEnd(before: seq<Value>, t: string)
    ensures Chain(before, DecodeItems(0, t)) == Got(Linked(before, NoValue), t)
  {
    ChainDone(before, NoValue, t);
  }
}
