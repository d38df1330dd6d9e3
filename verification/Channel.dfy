/**
 The whole way of a message: the sender (rct/SocketClient.cpp, rct/Connection.cpp), a kernel that
 delivers what it took in chunks of its own choosing, and the receiver (rct/Connection.cpp).
 */
module Channel {
  import opened Common
  import opened Buffers
  import opened Frames
  import S = Sender
  import R = Receiver

  /** The bytes as they arrive: in chunks of the given sizes, as far as there are bytes. */
  function Chop(bytes: string, sizes: seq<nat>): seq<string> {
    if sizes == [] then []
    else
      var n := if sizes[0] <= |bytes| then sizes[0] else |bytes|;
      [bytes[..n]] + Chop(bytes[n..], sizes[1..])
  }

  function Total(sizes: seq<nat>): nat { if sizes == [] then 0 else sizes[0] + Total(sizes[1..]) }

  function Arrived(bytes: string, sizes: seq<nat>): nat {
    if Total(sizes) <= |bytes| then Total(sizes) else |bytes|
  }

  lemma ArrivedStep(bytes: string, sizes: seq<nat>, n: nat)
    requires sizes != [] && n == if sizes[0] <= |bytes| then sizes[0] else |bytes|
    ensures Arrived(bytes, sizes) == n + Arrived(bytes[n..], sizes[1..])
  {
  }

  /** Chunking neither loses nor reorders bytes. */
  lemma {:induction false} ChopDelivers(bytes: string, sizes: seq<nat>)
    ensures Flat(Chop(bytes, sizes)) == bytes[..Arrived(bytes, sizes)]
  {
    if sizes != [] {
      var n := if sizes[0] <= |bytes| then sizes[0] else |bytes|;
      ChopDelivers(bytes[n..], sizes[1..]);
      S.FlatFirst(bytes[..n], Chop(bytes[n..], sizes[1..]));
      ArrivedStep(bytes, sizes, n);
      PrefixOfRest(bytes, n, Arrived(bytes[n..], sizes[1..]));
    }
  }

  lemma {:induction false} AllSendable(events: seq<S.Event>)
    requires forall e | e in events, m | m in S.MessageOf(e) :: Sendable(m)
    ensures forall m | m in S.MessagesOf(events) :: Sendable(m)
  {
    if events != [] {
      AllSendable(events[..|events| - 1]);
    }
  }

  lemma {:induction false} AllFramesAreWhole(ms: seq<Message>, version: int)
    ensures WholeFrames(ms, version, |FramesOf(ms, version)|) == |ms|
  {
    if ms != [] {
      AllFramesAreWhole(ms[1..], version);
    }
  }

  /** Whatever the kernel does to writes and chunks, the receiver is handed exactly the messages whose
      frames have arrived; all of them, in order and once, unless a write fails, a buffer is full, the
      kernel's last answer was to come again, or bytes are still on their way. */
  method Transfer(socket: S.SocketClient, events: seq<S.Event>, c: R.Connection, sizes: seq<nat>) returns (handled: nat)
    requires socket.Valid() && socket.open && socket.peer.promised == [] && socket.Queued() == []
    requires c.Valid() && c.pendingRead == 0 && c.received.Contents() == [] && c.dispatched == []
    requires IsInt32(c.version)
    requires S.Ready(events) && forall e | e in events, m | m in S.MessageOf(e) :: Sendable(m)
    modifies socket, socket.peer, socket.writeBuffer, socket.writeBuffer.data, c, c.received
    modifies set e | e in events && e.Cached? :: e.cache
    ensures handled <= |events| && (socket.open ==> handled == |events|)
    ensures var ms := S.MessagesOf(events[..handled]);
            c.dispatched == R.ExpectedAll(ms[..WholeFrames(ms, c.version, Arrived(socket.peer.kernel, sizes))], c.known)
    // the socket closes when a write fails, and otherwise only if its buffer may not hold what is sent
    ensures old(socket.answers) <= socket.answers
    ensures S.Failed in socket.answers[|old(socket.answers)|..] ==> !socket.open
    ensures S.Failed !in socket.answers[|old(socket.answers)|..]
            && (socket.maxWriteBufferSize == 0
                || socket.maxWriteBufferSize >= |FramesOf(S.MessagesOf(events[..handled]), c.version)|) ==>
              socket.open
    // and with everything taken and delivered every message arrives
    ensures socket.open && !S.Stuck(socket.answers) && Total(sizes) >= |socket.peer.kernel| ==>
              c.dispatched == R.ExpectedAll(S.MessagesOf(events), c.known)
  {
    handled := S.Run(socket, events, c.version);
    ghost var ms := S.MessagesOf(events[..handled]);
    var chunks := Chop(socket.peer.kernel, sizes);
    ChopDelivers(socket.peer.kernel, sizes);
    AllSendable(events[..handled]);
    R.ReceiveAll(c, chunks, ms);
    AllFramesAreWhole(ms, c.version);
    assert ms[..|ms|] == ms;
    assert events[..|events|] == events;
  }
}
