/**
 The byte buffers of rct/Buffer.h.
 */
module Buffers {
  import opened Common

  /** Buffer: the first `size` of the reserved bytes.  A null pointer is an empty array, and
      `realloc` a new array that keeps the bytes both have room for. */
  class Buffer {
    var data: array<char>
    var size: nat

    ghost predicate Valid()
      reads this
    {
      size <= data.Length
    }

    function Contents(): string
      requires Valid()
      reads this, data
    {
      data[..size]
    }

    constructor ()
      ensures Valid() && Contents() == [] && fresh(data) && data.Length == 0
    {
      data, size := new char[0], 0;
    }

    method Realloc(sz: nat)
      modifies this`data
      ensures data.Length == sz && fresh(data)
      ensures forall i | 0 <= i < sz && i < old(data.Length) :: data[i] == old(data[i])
    {
      var previous := data;
      var kept := previous[..];
      data := new char[sz](i => if 0 <= i < |kept| then kept[i] else '\0');
    }

    method Clear()
      requires Valid()
      modifies this
      ensures Valid() && Contents() == []
      ensures if old(size) >= 1024 * 512 then fresh(data) && data.Length == 0 else data == old(data)
    {
      if size >= 1024 * 512 {
        data := new char[0];
      }
      size := 0;
    }

    method Reserve(sz: nat)
      requires Valid()
      modifies this
      ensures Valid() && Contents() == old(Contents())
      ensures if sz <= old(data.Length) then data == old(data) else fresh(data) && data.Length == sz
    {
      if sz <= data.Length {
        return;
      }
      Realloc(sz);
    }

    method Resize(sz: nat)
      requires Valid()
      modifies this
      ensures Valid() && size == sz && (data == old(data) || fresh(data))
      ensures old(size) <= sz <= old(data.Length) && sz > 0 ==> data == old(data)
      ensures sz > 0 && !(old(size) <= sz <= old(data.Length)) ==> fresh(data) && data.Length == sz
      ensures forall i | 0 <= i < sz && i < old(data.Length) :: data[i] == old(data[i])
    {
      if sz == 0 {
        Clear();
        return;
      }
      if size <= sz <= data.Length {
        size := sz;
        return;
      }
      Realloc(sz);
      size := sz;
    }

    /** The way SocketClient::writeTo stores bytes: reserve, copy behind the end, resize. */
    method Store(bytes: string)
      requires Valid() && bytes != []
      modifies this, data
      ensures Valid() && Contents() == old(Contents()) + bytes && (data == old(data) || fresh(data))
    {
      ghost var all := Contents() + bytes;
      Reserve(size + |bytes|);
      Copy(data, size, bytes);
      Resize(size + |bytes|);
      assert forall i | 0 <= i < |all| :: data[i] == all[i];
      assert data[..size] == all;
    }
  }

  function Flat(buffers: seq<string>): string {
    if buffers == [] then [] else buffers[0] + Flat(buffers[1..])
  }

  lemma {:induction false} FlatSnoc(buffers: seq<string>, b: string)
    ensures Flat(buffers + [b]) == Flat(buffers) + b
  {
    if buffers == [] {
      assert [b][1..] == [] && [] + b == b && b + [] == b;
    } else {
      FlatSnoc(buffers[1..], b);
      assert (buffers + [b])[1..] == buffers[1..] + [b];
    }
  }

  /** Splitting a queue of bytes inside its first block. */
  lemma SplitInBlock(block: string, offset: nat, n: nat, rest: string)
    requires offset + n <= |block|
    ensures (block[offset..] + rest)[..n] == block[offset..offset + n]
    ensures (block[offset..] + rest)[n..] == block[offset + n..] + rest
  {
  }

  lemma SliceOn(all: string, i: nat, n: nat)
    requires i + n <= |all|
    ensures all[..i] + all[i..][..n] == all[..i + n] && all[i..][n..] == all[i + n..]
  {
  }

  lemma NothingOfBlock(blocks: seq<string>)
    requires blocks != []
    ensures blocks[0][|blocks[0]|..] + Flat(blocks[1..]) == Flat(blocks[1..])
  {
  }

  /** Buffers: a queue of received blocks of which the first `offset` bytes have been read.  A block
      read to its end is no longer queued. */
  class Buffers {
    var blocks: seq<string>
    var offset: nat

    ghost predicate Valid()
      reads this
    {
      offset == 0 || (blocks != [] && offset < |blocks[0]|)
    }

    /** The bytes not yet read, as one flat sequence. */
    ghost function Contents(): string
      requires Valid()
      reads this
    {
      if blocks == [] then [] else blocks[0][offset..] + Flat(blocks[1..])
    }

    constructor ()
      ensures Valid() && Contents() == []
    {
      blocks, offset := [], 0;
    }

    method Push(buf: string)
      requires Valid()
      modifies this
      ensures Valid() && Contents() == old(Contents()) + buf
    {
      FlatSnoc(blocks[if blocks == [] then 0 else 1..], buf);
      assert blocks != [] ==> (blocks + [buf])[1..] == blocks[1..] + [buf];
      assert [buf][1..] == [];
      blocks := blocks + [buf];
    }

    method Size() returns (n: nat)
      requires Valid()
      ensures n == |Contents()|
    {
      var ret := 0;
      for i := 0 to |blocks|
        invariant ret + |Flat(blocks[i..])| == |Flat(blocks)|
      {
        assert blocks[i..][1..] == blocks[i + 1..];
        ret := ret + |blocks[i]|;
      }
      assert blocks[|blocks|..] == [];
      n := ret - offset;
    }

    lemma NothingLeft()
      requires Valid() && blocks == []
      ensures Contents() == []
    {
    }

    lemma BlockIsQueued()
      requires Valid() && blocks != []
      ensures |blocks[0]| - offset <= |Contents()|
    {
    }

    lemma FlatIsContents()
      requires Valid() && offset == 0
      ensures Contents() == Flat(blocks)
    {
    }

    /** The branch of `read` that ends inside the first block. */
    method TakeWithin(out: array<char>, read: nat, remaining: nat)
      requires Valid() && blocks != [] && remaining <= |blocks[0]| - offset && read + remaining <= out.Length
      modifies this, out
      ensures Valid() && Contents() == old(Contents())[remaining..]
      ensures out[..read + remaining] == old(out[..read]) + old(Contents())[..remaining]
    {
      SplitInBlock(blocks[0], offset, remaining, Flat(blocks[1..]));
      NothingOfBlock(blocks);
      hide Flat;
      Copy(out, read, blocks[0][offset..offset + remaining]);
      if remaining == |blocks[0]| - offset {
        offset, blocks := 0, blocks[1..];
        FlatIsContents();
      } else {
        offset := remaining + offset;
      }
    }

    /** The branch of `read` that uses up the first block. */
    method TakeBlock(out: array<char>, read: nat) returns (n: nat)
      requires Valid() && blocks != [] && read + |blocks[0]| - offset <= out.Length
      modifies this, out
      ensures Valid() && |blocks| == |old(blocks)| - 1
      ensures n == |old(blocks)[0]| - old(offset) <= |old(Contents())| && Contents() == old(Contents())[n..]
      ensures out[..read + n] == old(out[..read]) + old(Contents())[..n]
    {
      n := |blocks[0]| - offset;
      SplitInBlock(blocks[0], offset, n, Flat(blocks[1..]));
      NothingOfBlock(blocks);
      hide Flat;
      Copy(out, read, blocks[0][offset..]);
      offset := 0;
      blocks := blocks[1..];
      FlatIsContents();
    }

    /** `read`: moves the first `min(size, Size())` bytes into `out` and drops them. */
    method Read(out: array<char>, size: nat) returns (read: nat)
      requires Valid() && size <= out.Length
      modifies this, out
      ensures Valid()
      ensures read == if size <= |old(Contents())| then size else |old(Contents())|
      ensures out[..read] == old(Contents())[..read] && Contents() == old(Contents())[read..]
    {
      if size == 0 {
        return 0;
      }
      hide Buffers.Contents;
      ghost var all := Contents();
      var remaining;
      read, remaining := 0, size;
      while blocks != []
        invariant Valid() && 0 < remaining && read + remaining == size && read <= |all|
        invariant out[..read] == all[..read] && Contents() == all[read..]
        decreases |blocks|
      {
        ghost var before := read;
        BlockIsQueued();
        if remaining <= |blocks[0]| - offset {
          SliceOn(all, before, remaining);
          TakeWithin(out, read, remaining);
          read := read + remaining;
          return;
        }
        var n := TakeBlock(out, read);
        SliceOn(all, before, n);
        read := read + n;
        remaining := remaining - n;
      }
      assert Contents() == [] by { NothingLeft(); }
    }
  }
}
