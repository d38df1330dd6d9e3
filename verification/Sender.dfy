/**
 The sending half: the write queue of SocketClient (rct/SocketClient.cpp, stream sockets) and the
 accounting of Connection (rct/Connection.cpp).
 */
module Sender {
  import opened Common
  import opened Wire
  import opened Buffers
  import opened Frames

  /** What a `write` that was not interrupted can report. */
  datatype Outcome = Wrote(n: nat) | Again | Failed

  /** The bytes taken by a series of writes. */
  function Taken(answers: seq<Outcome>): nat {
    if answers == [] then 0
    else Taken(answers[..|answers| - 1]) + (var e := answers[|answers| - 1]; if e.Wrote? then e.n else 0)
  }

  /** The kernel's last answer was to come again. */
  predicate Stuck(answers: seq<Outcome>) { answers != [] && answers[|answers| - 1] == Again }

  /** What is answered to someone who goes on writing until `size` bytes are taken or a write takes
      nothing, and writes no more then. */
  ghost predicate Exhausts(answers: seq<Outcome>, size: nat) {
    && (forall k | 0 <= k < |answers| - 1 :: answers[k].Wrote?)
    && Taken(answers) <= size
    && (Taken(answers) < size <==> answers != [] && !answers[|answers| - 1].Wrote?)
  }

  /** Connection: bytes of sent messages the kernel has not taken yet, and how often sendFinished fired. */
  class Connection {
    var pendingWrite: int
    var sendFinished: nat
    /** All bytes the kernel has taken, and all bytes of all messages handed to `send`. */
    var kernel: string
    ghost var promised: string

    ghost predicate Valid()
      reads this
    {
      kernel <= promised && pendingWrite == |promised| - |kernel|
    }

    constructor ()
      ensures Valid() && promised == [] && kernel == [] && sendFinished == 0
    {
      pendingWrite, sendFinished, promised, kernel := 0, 0, [], [];
    }

    /** `onDataWritten`: its assertion holds, and the signal fires exactly when everything is flushed. */
    method OnDataWritten(bytes: nat, chunk: string)
      requires Valid() && |chunk| == bytes && kernel + chunk <= promised
      modifies this
      ensures Valid() && promised == old(promised) && kernel == old(kernel) + chunk
      ensures sendFinished == old(sendFinished) + (if kernel == promised then 1 else 0)
    {
      assert pendingWrite >= bytes;
      pendingWrite := pendingWrite - bytes;
      kernel := kernel + chunk;
      if pendingWrite == 0 {
        assert kernel == promised;
        sendFinished := sendFinished + 1;
      }
    }
  }

  /** How often sendFinished fires while the kernel's bytes grow from `k0` to `k1`. */
  function Fires(k0: string, k1: string, promised: string): nat {
    if k1 == promised && k1 != k0 then 1 else 0
  }

  class SocketClient {
    const peer: Connection
    const writeBuffer: Buffer
    /** Is there an event loop to wait for writability in? */
    const hasLoop: bool
    const maxWriteBufferSize: nat
    var writeOffset: nat
    var writeWait: bool
    var open: bool
    /** What the kernel has answered so far. */
    ghost var answers: seq<Outcome>

    /** Bytes are kept back only because the kernel has asked to come again. */
    ghost predicate Valid()
      reads this, peer, writeBuffer, writeBuffer.data
    {
      && peer.Valid() && writeBuffer.Valid()
      && (if writeBuffer.size == 0 then writeOffset == 0 else writeOffset < writeBuffer.size)
      && (writeWait ==> hasLoop)
      && Queued() <= peer.promised
      && (writeWait || Unsent() != [] ==> Stuck(answers))
      && Taken(answers) == |peer.kernel| && writeOffset <= |peer.kernel|
    }

    /** The bytes accepted but not yet handed to the kernel. */
    ghost function Unsent(): string
      requires writeBuffer.Valid() && writeOffset <= writeBuffer.size
      reads this, writeBuffer, writeBuffer.data
    {
      writeBuffer.Contents()[writeOffset..]
    }

    /** All bytes accepted so far. */
    ghost function Queued(): string
      requires writeBuffer.Valid() && writeOffset <= writeBuffer.size
      reads this, peer, writeBuffer, writeBuffer.data
    {
      peer.kernel + Unsent()
    }

    constructor (peer: Connection, hasLoop: bool, maxWriteBufferSize: nat)
      requires peer.Valid() && peer.kernel == []
      ensures Valid() && this.peer == peer && Unsent() == [] && open && !writeWait && answers == []
      ensures this.hasLoop == hasLoop && this.maxWriteBufferSize == maxWriteBufferSize
      ensures fresh(writeBuffer) && fresh(writeBuffer.data)
    {
      this.peer, this.hasLoop, this.maxWriteBufferSize := peer, hasLoop, maxWriteBufferSize;
      writeBuffer := new Buffer();
      writeOffset, writeWait, open, answers := 0, false, true, [];
    }

    /** One `write`: the kernel takes some of the bytes, asks to come again, or fails. */
    method KernelWrite(bytes: string) returns (e: Outcome)
      requires bytes != []
      modifies this`answers
      ensures (e.Wrote? ==> 1 <= e.n <= |bytes|) && answers == old(answers) + [e]
    {
      e := *;
      if e.Wrote? && !(1 <= e.n <= |bytes|) {
        e := Again;
      }
      answers := answers + [e];
    }

    /** The branches behind a `write` that returned -1. */
    method Stopped(e: Outcome) returns (ok: bool)
      requires !e.Wrote? && !writeWait
      modifies this`writeWait, this`open
      ensures ok == e.Again? && open == (old(open) && ok) && writeWait == (ok && hasLoop)
    {
      if e == Again {
        if hasLoop {
          writeWait := true;
        }
        return true;
      }
      open := false;
      return false;
    }

    /** Writing `bytes` until all are taken or the kernel stops; `base` is what it had before.  The
        socket closes exactly when a write fails, and waits exactly when one asks to come again. */
    method WriteSome(bytes: string, ghost base: string) returns (ok: bool, total: nat, ghost got: seq<Outcome>)
      requires peer.Valid() && peer.kernel == base && base + bytes <= peer.promised
      requires !writeWait && open
      modifies this`writeWait, this`open, this`answers, peer
      ensures peer.Valid() && peer.promised == old(peer.promised)
      ensures old(peer.kernel) <= peer.kernel
      ensures peer.sendFinished == old(peer.sendFinished) + Fires(old(peer.kernel), peer.kernel, peer.promised)
      ensures answers == old(answers) + got && Exhausts(got, |bytes|) && total == Taken(got)
      ensures total <= |bytes| && peer.kernel == base + bytes[..total]
      ensures open == ok == (Failed !in got) && writeWait == (hasLoop && Stuck(got))
    {
      hide Taken, Exhausts, AllWrote, Fires, Stuck;
      ok, total, got := true, 0, [];
      NoAnswers();
      NothingFires(base, peer.promised);
      while total < |bytes|
        invariant peer.Valid() && peer.promised == old(peer.promised) && open && !writeWait && ok
        invariant total <= |bytes| && peer.kernel == base + bytes[..total]
        invariant peer.sendFinished == old(peer.sendFinished) + Fires(base, peer.kernel, peer.promised)
        invariant answers == old(answers) + got && total == Taken(got)
        invariant AllWrote(got)
        decreases |bytes| - total
      {
        var e := KernelWrite(bytes[total..]);
        if !e.Wrote? {
          OneStops(got, |bytes|, e);
          got := got + [e];
          ok := Stopped(e);
          return;
        }
        OneGoesOn(got, e);
        got := got + [e];
        var chunk := bytes[total..total + e.n];
        assert base + bytes[..total] + chunk == base + bytes[..total + e.n];
        assert base + bytes == base + bytes[..total + e.n] + bytes[total + e.n..];
        FiresOnce(base, peer.kernel, chunk, peer.promised);
        peer.OnDataWritten(e.n, chunk);
        total := total + e.n;
      }
      AllTaken(got, |bytes|);
    }

    /** Flushing the write buffer. */
    method Flush() returns (ok: bool, ghost got: seq<Outcome>)
      requires Valid() && open && !writeWait && writeBuffer.size > 0
      modifies this`writeWait, this`open, this`answers, this`writeOffset, peer, writeBuffer
      ensures peer.Valid() && peer.promised == old(peer.promised) && writeBuffer.Valid()
      ensures old(peer.kernel) <= peer.kernel
      ensures peer.sendFinished == old(peer.sendFinished) + Fires(old(peer.kernel), peer.kernel, peer.promised)
      ensures writeBuffer.data == old(writeBuffer.data) || fresh(writeBuffer.data)
      ensures answers == old(answers) + got && Exhausts(got, |old(Unsent())|)
      ensures |peer.kernel| == |old(peer.kernel)| + Taken(got)
      ensures open == ok == (Failed !in got) && writeWait == (hasLoop && Stuck(got))
      ensures !ok ==> peer.kernel <= old(Queued())
      ensures ok ==> Valid() && Queued() == old(Queued())
      ensures ok ==> writeBuffer.size == if Taken(got) == |old(Unsent())| then 0 else old(writeBuffer.size)
    {
      var total;
      ghost var unsent := Unsent();
      var writeBufferSize := writeBuffer.size - writeOffset;
      ok, total, got := WriteSome(writeBuffer.Contents()[writeOffset..], peer.kernel);
      AnswersEnd(old(answers), got);
      TakenBoth(old(answers), got);
      if !ok {
        return;
      }
      if total > 0 {
        if total < writeBufferSize {
          writeOffset := writeOffset + total;
        } else {
          writeOffset := 0;
          writeBuffer.Clear();
        }
      }
    }

    /** Would storing pass the maximum?  `unsent` bytes wait in a buffer of `size`, of them and of
        `data` more `taken` have just been written. */
    predicate PassesMaximum(size: nat, unsent: nat, data: nat, taken: nat)
      requires taken <= unsent + data
    {
      var kept := if taken < unsent then size else 0;
      var rest := if taken < unsent then data else unsent + data - taken;
      rest > 0 && maxWriteBufferSize > 0 && kept + rest > maxWriteBufferSize
    }

    /** `writeTo` without an address; no data stands for the null pointer of a flush request. */
    method WriteTo(data: string) returns (ok: bool, ghost got: seq<Outcome>)
      requires Valid() && open && Queued() + data <= peer.promised
      modifies this`writeWait, this`open, this`answers, this`writeOffset, peer, writeBuffer, writeBuffer.data
      ensures peer.Valid() && peer.promised == old(peer.promised) && writeBuffer.Valid()
      ensures old(peer.kernel) <= peer.kernel
      ensures peer.sendFinished == old(peer.sendFinished) + Fires(old(peer.kernel), peer.kernel, peer.promised)
      ensures writeBuffer.data == old(writeBuffer.data) || fresh(writeBuffer.data)
      // nothing is written while waiting; otherwise everything is offered until the kernel stops
      ensures answers == old(answers) + got
      ensures if old(writeWait) then got == [] else Exhausts(got, |old(Unsent())| + |data|)
      ensures writeWait == (old(writeWait) || (hasLoop && Stuck(got)))
      // the socket closes on errors and full buffers only
      ensures Taken(got) <= |old(Unsent())| + |data| && |peer.kernel| == |old(peer.kernel)| + Taken(got)
      ensures open == ok
      ensures !ok <==> Failed in got || PassesMaximum(old(writeBuffer.size), |old(Unsent())|, |data|, Taken(got))
      ensures !ok ==> peer.kernel <= old(Queued()) + data
      ensures ok ==> Valid() && Queued() == old(Queued()) + data
    {
      hide Exhausts, Taken, Stuck;
      NoAnswers();
      if !writeWait {
        ok, got := WriteNow(data);
        return;
      }
      ok, got := true, [];
      assert Queued() + [] == Queued();
      if data != [] {
        ok := StoreRest(data);
      }
    }

    /** The same when nobody waits for writability. */
    method WriteNow(data: string) returns (ok: bool, ghost got: seq<Outcome>)
      requires Valid() && open && !writeWait && Queued() + data <= peer.promised
      modifies this`writeWait, this`open, this`answers, this`writeOffset, peer, writeBuffer, writeBuffer.data
      ensures peer.Valid() && peer.promised == old(peer.promised) && writeBuffer.Valid()
      ensures old(peer.kernel) <= peer.kernel
      ensures peer.sendFinished == old(peer.sendFinished) + Fires(old(peer.kernel), peer.kernel, peer.promised)
      ensures writeBuffer.data == old(writeBuffer.data) || fresh(writeBuffer.data)
      ensures answers == old(answers) + got && Exhausts(got, |old(Unsent())| + |data|)
      ensures writeWait == (hasLoop && Stuck(got))
      ensures Taken(got) <= |old(Unsent())| + |data| && |peer.kernel| == |old(peer.kernel)| + Taken(got)
      ensures open == ok
      ensures !ok <==> Failed in got || PassesMaximum(old(writeBuffer.size), |old(Unsent())|, |data|, Taken(got))
      ensures !ok ==> peer.kernel <= old(Queued()) + data
      ensures ok ==> Valid() && Queued() == old(Queued()) + data
    {
      hide Exhausts, Taken, Stuck, Fires;
      ghost var queued, unsent := Queued(), |Unsent()|;
      got := [];
      NoAnswers();
      NothingFires(peer.kernel, peer.promised);
      if writeBuffer.size > 0 {
        ok, got := Flush();
        if !ok {
          FailedStops(got, unsent, |data|);
          return;
        }
      }
      assert queued + [] == queued;
      assert Exhausts(got, unsent);
      if data == [] {
        return true, got;
      }
      if writeBuffer.size == 0 {
        ghost var flushed, k := got, peer.kernel;
        NotStuck(flushed, unsent);
        ok, got := WriteDirect(data);
        FiresBoth(old(peer.kernel), k, peer.kernel, peer.promised, data);
        ExhaustsBoth(flushed, unsent, got, |data|);
        Assoc(old(answers), flushed, got);
        got := flushed + got;
        assert Exhausts(got, unsent + |data|);
        return;
      }
      StuckStops(got, unsent, |data|);
      assert Exhausts(got, unsent + |data|);
      ok := StoreRest(data);
    }

    /** The second loop of `writeTo` and storing what it leaves. */
    method WriteDirect(data: string) returns (ok: bool, ghost got: seq<Outcome>)
      requires Valid() && open && !writeWait && writeBuffer.size == 0 && data != []
      requires Queued() + data <= peer.promised
      modifies this`writeWait, this`open, this`answers, peer, writeBuffer, writeBuffer.data
      ensures peer.Valid() && peer.promised == old(peer.promised) && writeBuffer.Valid()
      ensures old(peer.kernel) <= peer.kernel
      ensures peer.sendFinished == old(peer.sendFinished) + Fires(old(peer.kernel), peer.kernel, peer.promised)
      ensures writeBuffer.data == old(writeBuffer.data) || fresh(writeBuffer.data)
      ensures answers == old(answers) + got && Exhausts(got, |data|) && writeWait == (hasLoop && Stuck(got))
      ensures Taken(got) <= |data| && |peer.kernel| == |old(peer.kernel)| + Taken(got) && open == ok
      ensures !ok <==> Failed in got || PassesMaximum(0, 0, |data|, Taken(got))
      ensures !ok ==> peer.kernel <= old(Queued()) + data
      ensures ok ==> Valid() && Queued() == old(Queued()) + data
    {
      var total;
      ghost var base := peer.kernel;
      assert Queued() == base;
      ok, total, got := WriteSome(data, base);
      AnswersEnd(old(answers), got);
      TakenBoth(old(answers), got);
      assert data == data[..total] + data[total..];
      assert base + data[..total] + data[total..] == base + data;
      if !ok {
        return;
      }
      if total < |data| {
        assert Queued() == peer.kernel;
        ok := StoreRest(data[total..]);
      }
    }

    /** Storing what could not be written, unless the buffer would grow too large. */
    method StoreRest(rest: string) returns (ok: bool)
      requires Valid() && open && rest != [] && Queued() + rest <= peer.promised && Stuck(answers)
      modifies this`open, writeBuffer, writeBuffer.data
      ensures ok <==> !(maxWriteBufferSize > 0 && old(writeBuffer.size) + |rest| > maxWriteBufferSize)
      ensures ok ==> Valid() && open && Queued() == old(Queued()) + rest
      ensures !ok ==> !open && writeBuffer.Valid() && peer.kernel <= old(Queued())
      ensures writeBuffer.data == old(writeBuffer.data) || fresh(writeBuffer.data)
    {
      if maxWriteBufferSize > 0 && writeBuffer.size + |rest| > maxWriteBufferSize {
        open := false;
        return false;
      }
      ghost var before := writeBuffer.Contents();
      writeBuffer.Store(rest);
      assert (before + rest)[writeOffset..] == before[writeOffset..] + rest;
      assert peer.kernel + before[writeOffset..] + rest == peer.kernel + (before[writeOffset..] + rest);
      return true;
    }

    /** The write branch of `socketCallback`. */
    method OnWritable() returns (ok: bool, ghost got: seq<Outcome>)
      requires Valid() && open
      modifies this`writeWait, this`open, this`answers, this`writeOffset, peer, writeBuffer, writeBuffer.data
      ensures peer.Valid() && peer.promised == old(peer.promised) && writeBuffer.Valid()
      ensures old(peer.kernel) <= peer.kernel
      ensures peer.sendFinished == old(peer.sendFinished) + Fires(old(peer.kernel), peer.kernel, peer.promised)
      ensures writeBuffer.data == old(writeBuffer.data) || fresh(writeBuffer.data)
      ensures answers == old(answers) + got && Exhausts(got, |old(Unsent())|) && writeWait == (hasLoop && Stuck(got))
      ensures |peer.kernel| == |old(peer.kernel)| + Taken(got)
      ensures open == ok == (Failed !in got)
      ensures !ok ==> peer.kernel <= old(Queued())
      ensures ok ==> Valid() && Queued() == old(Queued())
    {
      if writeWait && hasLoop {
        writeWait := false;
      }
      assert Queued() + [] == Queued();
      ok, got := WriteTo([]);
    }
  }

  ghost predicate AllWrote(answers: seq<Outcome>) { forall k | 0 <= k < |answers| :: answers[k].Wrote? }

  lemma NothingFires(k: string, promised: string)
    ensures Fires(k, k, promised) == 0
  {
  }

  lemma FiresBoth(k0: string, k1: string, k2: string, promised: string, data: string)
    requires k0 <= k1 <= k2 && k1 + data <= promised && data != []
    ensures Fires(k0, k1, promised) + Fires(k1, k2, promised) == Fires(k0, k2, promised)
  {
  }

  lemma FiresOnce(k0: string, k: string, chunk: string, promised: string)
    requires k0 <= k && chunk != [] && k + chunk <= promised
    ensures Fires(k0, k + chunk, promised) == Fires(k0, k, promised) + (if k + chunk == promised then 1 else 0)
  {
    assert k != promised;
    assert |k + chunk| > |k0|;
  }

  lemma OneStops(a: seq<Outcome>, size: nat, e: Outcome)
    requires AllWrote(a) && Taken(a) < size && !e.Wrote?
    ensures Exhausts(a + [e], size) && Taken(a + [e]) == Taken(a)
    ensures Stuck(a + [e]) == e.Again? && (Failed in a + [e] <==> e == Failed)
  {
    OneMoreAnswer(a, e);
    hide Taken;
  }

  lemma OneGoesOn(a: seq<Outcome>, e: Outcome)
    requires AllWrote(a) && e.Wrote?
    ensures AllWrote(a + [e]) && Taken(a + [e]) == Taken(a) + e.n
  {
    OneMoreAnswer(a, e);
    hide Taken;
  }

  lemma AllTaken(a: seq<Outcome>, size: nat)
    requires AllWrote(a) && Taken(a) == size
    ensures Exhausts(a, size) && !Stuck(a) && Failed !in a
  {
    hide Taken;
  }

  lemma OneMoreAnswer(answers: seq<Outcome>, e: Outcome)
    ensures Taken(answers + [e]) == Taken(answers) + (if e.Wrote? then e.n else 0)
  {
    assert (answers + [e])[..|answers|] == answers;
  }

  lemma AnswersEnd(before: seq<Outcome>, got: seq<Outcome>)
    ensures got != [] ==> Stuck(before + got) == Stuck(got)
  {
    if got != [] {
      assert (before + got)[|before + got| - 1] == got[|got| - 1];
    }
  }

  lemma {:induction false} TakenBoth(a: seq<Outcome>, b: seq<Outcome>)
    ensures Taken(a + b) == Taken(a) + Taken(b)
  {
    if b == [] {
      assert a + b == a;
    } else {
      var c, e := b[..|b| - 1], b[|b| - 1];
      TakenBoth(a, c);
      assert a + b == a + c + [e];
      OneMoreAnswer(a + c, e);
    }
  }

  /** Two loops one after the other, when the first has had everything taken. */
  lemma ExhaustsBoth(a: seq<Outcome>, n: nat, b: seq<Outcome>, m: nat)
    requires Exhausts(a, n) && Taken(a) == n && Exhausts(b, m) && m > 0
    ensures Exhausts(a + b, n + m) && Taken(a + b) == n + Taken(b)
    ensures Stuck(a + b) == Stuck(b) && (Failed in a + b <==> Failed in b)
  {
    TakenBoth(a, b);
    AnswersEnd(a, b);
  }

  lemma NoAnswers()
    ensures Taken([]) == 0 && Exhausts([], 0) && !Stuck([]) && AllWrote([])
  {
  }

  lemma NotStuck(a: seq<Outcome>, n: nat)
    requires Exhausts(a, n) && Taken(a) == n
    ensures !Stuck(a)
  {
  }

  lemma StuckStops(a: seq<Outcome>, n: nat, m: nat)
    requires Exhausts(a, n) && Taken(a) < n && Failed !in a
    ensures Exhausts(a, n + m) && Stuck(a)
  {
  }

  /** A failure ends the writing. */
  lemma FailedStops(a: seq<Outcome>, n: nat, m: nat)
    requires Exhausts(a, n) && Failed in a
    ensures Exhausts(a, n + m) && Taken(a) < n
  {
    var k :| 0 <= k < |a| && a[k] == Failed;
  }

  // ---- Sending messages ----

  /** The bytes of a message as the pieces `send` writes one after the other: the cached header and
      value, or the single fields of the serializer. */
  ghost predicate IsSplitOf(pieces: seq<string>, text: string) {
    Flat(pieces) == text && forall i | 0 <= i < |pieces| :: pieces[i] != []
  }

  /** The encoding a message caches (rct/Message.cpp, prepare). */
  class MessageCache {
    const message: Message
    var version: int
    var header: string
    var value: string

    ghost predicate Valid()
      reads this
    {
      if header == [] then value == [] else header == Header(message, version) && value == message.body
    }

    constructor (m: Message)
      ensures Valid() && message == m
    {
      message, version, header, value := m, 0, [], [];
    }

    /** `prepare`: whatever versions were asked for before, the pieces are those of this version. */
    method Prepare(ver: int) returns (h: string, v: string)
      requires Valid()
      modifies this
      ensures Valid() && h == Header(message, ver) && v == message.body
      ensures h + v == Frame(message, ver)
    {
      if header == [] || ver != version {
        if ver != version {
          header, value := [], [];
        }
        value := value + message.body;
        header := header + Header(message, ver);
        version := ver;
      }
      h, v := header, value;
    }

    method ClearCache()
      requires Valid()
      modifies this
      ensures Valid() && header == []
    {
      header, value, version := [], [], 0;
    }
  }

  /** The header and, unless empty, the value of the cache split the frame. */
  lemma CachedPieces(m: Message, version: int)
    ensures m.body == [] ==> IsSplitOf([Header(m, version)], Frame(m, version))
    ensures m.body != [] ==> IsSplitOf([Header(m, version), m.body], Frame(m, version))
  {
    var h := Header(m, version);
    HeaderLength(m, version);
    hide Header;
    OnePiece(h);
    OnePiece(m.body);
    assert [h, m.body][1..] == [m.body] && h + [] == h;
  }

  lemma OnePiece(piece: string)
    ensures Flat([piece]) == piece
  {
    assert [piece][1..] == [] && piece + [] == piece;
  }

  lemma HeaderLength(m: Message, version: int)
    ensures |Header(m, version)| == 10
  {
  }

  /** What a message's own `encode` writes, one write after the other. */
  ghost predicate Encodes(writes: seq<string>, body: string) {
    Flat(writes) == body && forall i | 0 <= i < |writes| :: writes[i] != []
  }

  /** The serializer's writes: length, version, id and flags, then those of `encode`. */
  lemma EncodedPieces(m: Message, version: int, writes: seq<string>)
    requires Encodes(writes, m.body)
    ensures IsSplitOf([U32(|m.body| + HeaderExtra), I32(version), [m.id], [m.flags]] + writes, Frame(m, version))
  {
    var l, p, id, flags := U32(|m.body| + HeaderExtra), I32(version), [m.id], [m.flags];
    FlatFour(l, p, id, flags, writes);
    assert Frame(m, version) == l + p + id + flags + m.body;
  }

  lemma FlatFour(a: string, b: string, c: string, d: string, rest: seq<string>)
    ensures Flat([a, b, c, d] + rest) == a + b + c + d + Flat(rest)
  {
    FlatFirst(d, rest);
    FlatFirst(c, [d] + rest);
    FlatFirst(b, [c, d] + rest);
    FlatFirst(a, [b, c, d] + rest);
    assert [a] + ([b, c, d] + rest) == [a, b, c, d] + rest && [b] + ([c, d] + rest) == [b, c, d] + rest;
    assert [c] + ([d] + rest) == [c, d] + rest;
    assert a + (b + (c + (d + Flat(rest)))) == a + b + c + d + Flat(rest);
  }

  lemma FlatFirst(a: string, rest: seq<string>)
    ensures Flat([a] + rest) == a + Flat(rest)
  {
    assert ([a] + rest)[1..] == rest;
  }

  lemma FailedSince(before: seq<Outcome>, earlier: seq<Outcome>, got: seq<Outcome>)
    requires before <= earlier
    ensures before <= earlier + got
    ensures Failed in (earlier + got)[|before|..] <==> Failed in earlier[|before|..] || Failed in got
  {
    assert (earlier + got)[|before|..] == earlier[|before|..] + got;
  }

  /** A socket open after the answers `before` is closed after `now` if a write has failed since, and
      otherwise only if more bytes were promised than its buffer may hold. */
  ghost predicate Closes(before: seq<Outcome>, now: seq<Outcome>, open: bool, max: nat, promised: nat) {
    && before <= now
    && (Failed in now[|before|..] ==> !open)
    && (!open ==> Failed in now[|before|..] || 0 < max < promised)
  }

  ghost predicate ClosesRightly(socket: SocketClient, before: seq<Outcome>)
    reads socket, socket.peer
  {
    Closes(before, socket.answers, socket.open, socket.maxWriteBufferSize, |socket.peer.promised|)
  }

  lemma NothingCloses(before: seq<Outcome>, max: nat, promised: nat)
    ensures Closes(before, before, true, max, promised)
  {
  }

  lemma ClosesOn(before: seq<Outcome>, earlier: seq<Outcome>, now: seq<Outcome>, open: bool, max: nat, p: nat, p': nat)
    requires Closes(before, earlier, true, max, p) && Closes(earlier, now, open, max, p')
    ensures Closes(before, now, open, max, p')
  {
    assert now == earlier + now[|earlier|..];
    FailedSince(before, earlier, now[|earlier|..]);
  }

  lemma PieceCloses(before: seq<Outcome>, earlier: seq<Outcome>, got: seq<Outcome>, ok: bool, full: bool, max: nat, p: nat)
    requires Closes(before, earlier, true, max, p) && (!ok <==> Failed in got || full) && (full ==> 0 < max < p)
    ensures Closes(before, earlier + got, ok, max, p)
  {
    FailedSince(before, earlier, got);
  }

  /** A buffer that would pass its maximum would hold nothing but promised bytes. */
  lemma FullMeans(socket: SocketClient, data: nat)
    requires socket.Valid() && |socket.Queued()| + data <= |socket.peer.promised|
    ensures forall taken: nat | taken <= |socket.Unsent()| + data
                && socket.PassesMaximum(socket.writeBuffer.size, |socket.Unsent()|, data, taken) ::
              0 < socket.maxWriteBufferSize < |socket.peer.promised|
  {
  }

  /** Counting a whole message as pending, then writing its pieces until one fails. */
  method SendPieces(socket: SocketClient, pieces: seq<string>, size: nat, ghost text: string) returns (ok: bool)
    requires socket.Valid() && socket.open && socket.Queued() == socket.peer.promised
    requires IsSplitOf(pieces, text) && size == |text| > 0
    modifies socket`writeWait, socket`open, socket`answers, socket`writeOffset
    modifies socket.peer, socket.writeBuffer, socket.writeBuffer.data
    ensures socket.peer.Valid() && socket.open == ok
    ensures ClosesRightly(socket, old(socket.answers))
    ensures socket.peer.promised == old(socket.peer.promised) + text
    ensures socket.peer.sendFinished
         == old(socket.peer.sendFinished) + Fires(old(socket.peer.kernel), socket.peer.kernel, socket.peer.promised)
    ensures ok ==> socket.Valid() && socket.Queued() == socket.peer.promised
    ensures ok && socket.hasLoop && socket.Unsent() != [] ==> socket.writeWait
    ensures socket.writeBuffer.data == old(socket.writeBuffer.data) || fresh(socket.writeBuffer.data)
  {
    var peer := socket.peer;
    ghost var whole := peer.promised + text;
    peer.pendingWrite := peer.pendingWrite + size;
    peer.promised := whole;
    ok := true;
    NothingCloses(socket.answers, socket.maxWriteBufferSize, |whole|);
    hide Closes, Taken;
    assert pieces[0..] == pieces;
    for i := 0 to |pieces|
      invariant ok && socket.Valid() && socket.open && peer.promised == whole
      invariant socket.Queued() + Flat(pieces[i..]) == whole
      invariant old(peer.kernel) <= peer.kernel
      invariant peer.sendFinished == old(peer.sendFinished) + Fires(old(peer.kernel), peer.kernel, whole)
      invariant socket.writeBuffer.data == old(socket.writeBuffer.data) || fresh(socket.writeBuffer.data)
      invariant i > 0 && socket.hasLoop && socket.Unsent() != [] ==> socket.writeWait
      invariant ClosesRightly(socket, old(socket.answers))
    {
      assert pieces[i..][1..] == pieces[i + 1..];
      Assoc(socket.Queued(), pieces[i], Flat(pieces[i + 1..]));
      ghost var earlier, unsent, size := socket.answers, |socket.Unsent()|, socket.writeBuffer.size;
      ghost var got;
      FullMeans(socket, |pieces[i]|);
      ok, got := socket.WriteTo(pieces[i]);
      ghost var full := socket.PassesMaximum(size, unsent, |pieces[i]|, Taken(got));
      PieceCloses(old(socket.answers), earlier, got, ok, full, socket.maxWriteBufferSize, |whole|);
      if !ok {
        return;
      }
    }
    assert socket.Queued() + [] == socket.Queued();
  }

  /** `Connection::send` of a message that caches its encoding: the header and, unless empty, the value. */
  method SendCached(socket: SocketClient, cache: MessageCache, version: int) returns (ok: bool)
    requires socket.Valid() && socket.open && socket.Queued() == socket.peer.promised && cache.Valid()
    modifies socket`writeWait, socket`open, socket`answers, socket`writeOffset
    modifies socket.peer, socket.writeBuffer, socket.writeBuffer.data, cache
    ensures socket.peer.Valid() && socket.open == ok && cache.Valid()
    ensures ClosesRightly(socket, old(socket.answers))
    ensures socket.peer.promised == old(socket.peer.promised) + Frame(cache.message, version)
    ensures socket.peer.sendFinished
         == old(socket.peer.sendFinished) + Fires(old(socket.peer.kernel), socket.peer.kernel, socket.peer.promised)
    ensures ok ==> socket.Valid() && socket.Queued() == socket.peer.promised
    ensures ok && socket.hasLoop && socket.Unsent() != [] ==> socket.writeWait
    ensures socket.writeBuffer.data == old(socket.writeBuffer.data) || fresh(socket.writeBuffer.data)
  {
    hide Header, IsSplitOf;
    var header, value := cache.Prepare(version);
    CachedPieces(cache.message, version);
    HeaderLength(cache.message, version);
    var pieces := if value == [] then [header] else [header, value];
    ok := SendPieces(socket, pieces, |header| + |value|, Frame(cache.message, version));
  }

  /** `Connection::send` of any other message: the serializer writes straight to the socket.  The size
      counted is `encodedSize()`, which has to be the size of what `encode` writes. */
  method SendEncoded(socket: SocketClient, m: Message, writes: seq<string>, encodedSize: nat, version: int) returns (ok: bool)
    requires socket.Valid() && socket.open && socket.Queued() == socket.peer.promised
    requires Encodes(writes, m.body) && encodedSize == |m.body|
    modifies socket`writeWait, socket`open, socket`answers, socket`writeOffset
    modifies socket.peer, socket.writeBuffer, socket.writeBuffer.data
    ensures socket.peer.Valid() && socket.open == ok
    ensures ClosesRightly(socket, old(socket.answers))
    ensures socket.peer.promised == old(socket.peer.promised) + Frame(m, version)
    ensures socket.peer.sendFinished
         == old(socket.peer.sendFinished) + Fires(old(socket.peer.kernel), socket.peer.kernel, socket.peer.promised)
    ensures ok ==> socket.Valid() && socket.Queued() == socket.peer.promised
    ensures ok && socket.hasLoop && socket.Unsent() != [] ==> socket.writeWait
    ensures socket.writeBuffer.data == old(socket.writeBuffer.data) || fresh(socket.writeBuffer.data)
  {
    EncodedPieces(m, version, writes);
    FrameLength(m, version);
    hide Encodes, IsSplitOf, Frame;
    var header := [U32(encodedSize + HeaderExtra), I32(version), [m.id], [m.flags]];
    ok := SendPieces(socket, header + writes, encodedSize + HeaderExtra + 4, Frame(m, version));
  }

  lemma FrameLength(m: Message, version: int)
    ensures |Frame(m, version)| == |m.body| + HeaderExtra + 4
  {
  }

  // ---- Whole runs ----

  /** What happens to a sender: messages to send, and the socket becoming writable. */
  datatype Event =
    | Cached(cache: MessageCache)
    | Encoded(message: Message, writes: seq<string>)
    | Writable

  function MessageOf(e: Event): seq<Message> {
    match e
    case Cached(cache) => [cache.message]
    case Encoded(m, _) => [m]
    case Writable => []
  }

  function MessagesOf(events: seq<Event>): seq<Message> {
    if events == [] then [] else MessagesOf(events[..|events| - 1]) + MessageOf(events[|events| - 1])
  }

  /** The messages can encode themselves, and nobody has spoilt their caches. */
  ghost predicate Ready(events: seq<Event>)
    reads set e | e in events && e.Cached? :: e.cache
  {
    forall e | e in events :: (e.Cached? ==> e.cache.Valid()) && (e.Encoded? ==> Encodes(e.writes, e.message.body))
  }

  lemma MessagesStep(events: seq<Event>, k: nat)
    requires k < |events|
    ensures MessagesOf(events[..k + 1]) == MessagesOf(events[..k]) + MessageOf(events[k])
  {
    assert events[..k + 1][..k] == events[..k];
  }

  lemma {:induction false} FramesSnoc(ms: seq<Message>, m: Message, version: int)
    ensures FramesOf(ms + [m], version) == FramesOf(ms, version) + Frame(m, version)
  {
    hide Frame;
    if ms == [] {
      assert [m][1..] == [] && [] + Frame(m, version) == Frame(m, version) + [] == Frame(m, version);
    } else {
      FramesSnoc(ms[1..], m, version);
      assert (ms + [m])[1..] == ms[1..] + [m];
      Assoc(Frame(ms[0], version), FramesOf(ms[1..], version), Frame(m, version));
    }
  }

  /** One event: its message, if it has one, is promised whole. */
  method Handle(socket: SocketClient, events: seq<Event>, e: Event, version: int) returns (ok: bool)
    requires socket.Valid() && socket.open && socket.Queued() == socket.peer.promised
    requires Ready(events) && e in events
    modifies socket`writeWait, socket`open, socket`answers, socket`writeOffset
    modifies socket.peer, socket.writeBuffer, socket.writeBuffer.data
    modifies set e | e in events && e.Cached? :: e.cache
    ensures Ready(events)
    ensures socket.peer.Valid() && socket.open == ok
    ensures ClosesRightly(socket, old(socket.answers))
    ensures socket.peer.promised == old(socket.peer.promised) + FramesOf(MessageOf(e), version)
    ensures ok ==> socket.Valid() && socket.Queued() == socket.peer.promised
    ensures socket.writeBuffer.data == old(socket.writeBuffer.data) || fresh(socket.writeBuffer.data)
  {
    OneFrame(e, version);
    hide Frame, FramesOf, Encodes;
    match e {
      case Cached(cache) => ok := SendCached(socket, cache, version);
      case Encoded(m, writes) => ok := SendEncoded(socket, m, writes, |m.body|, version);
      case Writable =>
        assert socket.peer.promised + [] == socket.peer.promised;
        ghost var earlier, got := socket.answers, [];
        ok, got := socket.OnWritable();
        NothingCloses(earlier, socket.maxWriteBufferSize, |socket.peer.promised|);
        PieceCloses(earlier, earlier, got, ok, false, socket.maxWriteBufferSize, |socket.peer.promised|);
    }
  }

  lemma OneFrame(e: Event, version: int)
    ensures e.Writable? ==> FramesOf(MessageOf(e), version) == []
    ensures !e.Writable? ==> FramesOf(MessageOf(e), version) == Frame(MessageOf(e)[0], version)
  {
    if !e.Writable? {
      assert MessageOf(e)[1..] == [];
      assert Frame(MessageOf(e)[0], version) + [] == Frame(MessageOf(e)[0], version);
    }
  }

  /** The frames of the first k + 1 events. */
  lemma FramesStep(events: seq<Event>, k: nat, version: int)
    requires k < |events|
    ensures FramesOf(MessagesOf(events[..k + 1]), version)
         == FramesOf(MessagesOf(events[..k]), version) + FramesOf(MessageOf(events[k]), version)
  {
    hide MessagesOf, Frame;
    MessagesStep(events, k);
    OneFrame(events[k], version);
    var before := MessagesOf(events[..k]);
    if events[k].Writable? {
      assert before + [] == before && FramesOf(before, version) + [] == FramesOf(before, version);
    } else {
      FramesSnoc(before, MessageOf(events[k])[0], version);
    }
  }

  lemma NothingPromised(events: seq<Event>, version: int)
    ensures FramesOf(MessagesOf(events[..0]), version) == []
  {
  }

  /** Over every run, with whatever short writes the kernel makes: what it has taken is a prefix of
      the frames sent, and while the socket is open nothing of them is lost, doubled or reordered.  It
      closes when a write fails, and otherwise only if its buffer may not hold what is sent; and what
      it keeps back it keeps because the kernel's last answer was to come again. */
  method Run(socket: SocketClient, events: seq<Event>, version: int) returns (handled: nat)
    requires socket.Valid() && socket.open && socket.peer.promised == [] && socket.Queued() == []
    requires Ready(events)
    modifies socket`writeWait, socket`open, socket`answers, socket`writeOffset
    modifies socket.peer, socket.writeBuffer, socket.writeBuffer.data
    modifies set e | e in events && e.Cached? :: e.cache
    ensures handled <= |events| && (socket.open ==> handled == |events|)
    ensures socket.peer.kernel <= socket.peer.promised == FramesOf(MessagesOf(events[..handled]), version)
    ensures socket.open ==> socket.Valid() && socket.Queued() == socket.peer.promised
    ensures ClosesRightly(socket, old(socket.answers))
    ensures socket.open && !Stuck(socket.answers) ==> socket.peer.kernel == FramesOf(MessagesOf(events), version)
  {
    handled := 0;
    var ok := true;
    hide Encodes, MessagesOf, MessageOf, FramesOf, Frame, Ready, Closes, Stuck, Taken;
    NothingPromised(events, version);
    NothingCloses(socket.answers, socket.maxWriteBufferSize, |socket.peer.promised|);
    while handled < |events| && ok
      invariant handled <= |events| && socket.open == ok && socket.peer.Valid() && Ready(events)
      invariant socket.peer.promised == FramesOf(MessagesOf(events[..handled]), version)
      invariant ok ==> socket.Valid() && socket.Queued() == socket.peer.promised
      invariant ClosesRightly(socket, old(socket.answers))
      invariant socket.writeBuffer.data == old(socket.writeBuffer.data) || fresh(socket.writeBuffer.data)
      decreases |events| - handled, ok
    {
      assert events[handled] in events;
      FramesStep(events, handled, version);
      ghost var earlier, p := socket.answers, |socket.peer.promised|;
      ok := Handle(socket, events, events[handled], version);
      ClosesOn(old(socket.answers), earlier, socket.answers, ok, socket.maxWriteBufferSize, p, |socket.peer.promised|);
      handled := handled + 1;
    }
    assert events[..|events|] == events;
    assert socket.open && !Stuck(socket.answers) ==> socket.peer.kernel + [] == socket.peer.kernel;
  }
}
