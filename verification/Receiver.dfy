/**
 The receiving half of Connection (rct/Connection.cpp).
 */
module Receiver {
  import opened Common
  import opened Wire
  import opened WireCode
  import opened Buffers
  import opened Frames

  /** No message came out of the payload, and the client is closed. */
  predicate IsFailure(d: Dispatch) { d.VersionError? || d.IdError? || d.Truncated? }

  ghost predicate HasFailure(ds: seq<Dispatch>) { exists d :: d in ds && IsFailure(d) }

  lemma OneMoreDispatch(ds: seq<Dispatch>, d: Dispatch)
    ensures HasFailure(ds + [d]) <==> HasFailure(ds) || IsFailure(d)
  {
    if HasFailure(ds) {
      var e :| e in ds && IsFailure(e);
      assert e in ds + [d];
    }
    if IsFailure(d) {
      assert d in ds + [d];
    }
  }

  /** `Message::create`, and decoding the finish message: the header is read field by field. */
  method Create(payload: string, version: int, known: set<char>) returns (d: Dispatch)
    ensures d == DispatchOf(payload, version, known)
    ensures forall m: Message :: IsInt32(version) && payload == Payload(m, version) ==> d == Expected(m, known)
  {
    forall m: Message | IsInt32(version) && payload == Payload(m, version)
      ensures DispatchOf(payload, version, known) == Expected(m, known)
    {
      Frames.DispatchPayload(m, version, known);
    }
    hide Payload, Expected, DecodeI32;
    var ds := new Deserializer(payload);
    var ok, ver := ds.ReadI32();
    if !ok {
      return Truncated;
    }
    if ver != version {
      return VersionError(ver);
    }
    ghost var fields := ds.Rest();
    var id, flags;
    ok, id := ds.Read(1);
    if !ok {
      return Truncated;
    }
    ok, flags := ds.Read(1);
    if !ok {
      return Truncated;
    }
    assert fields[1..][1..] == fields[2..];
    if id[0] !in known {
      return IdError(id[0]);
    }
    var body := ds.Rest();
    if id[0] == FinishId {
      var status;
      ok, status := ds.ReadI32();
      return if ok then Finished(status) else Truncated;
    }
    return NewMessage(Message(id[0], flags[0], body));
  }

  class Connection {
    const version: int
    const known: set<char>
    const received: Buffers
    /** The length of the payload awaited, 0 if its length has not arrived yet. */
    var pendingRead: nat
    /** What has been handed to the message, finish and error handlers, in order. */
    var dispatched: seq<Dispatch>
    var closed: bool

    ghost predicate Valid()
      reads this, received
    {
      received.Valid() && (closed <==> HasFailure(dispatched))
    }

    constructor (version: int, known: set<char>)
      ensures Valid() && fresh(received) && this.version == version && this.known == known
      ensures received.Contents() == [] && pendingRead == 0 && dispatched == []
    {
      this.version, this.known := version, known;
      received := new Buffers();
      pendingRead, dispatched, closed := 0, [], false;
    }

    /** The bytes received but not dispatched, cut as far as they go. */
    ghost function Cutting(more: string): Cut
      requires Valid()
      reads this, received
    {
      Deframe(pendingRead, received.Contents() + more)
    }

    /** The handlers behind Message::create: an encoded message is handed over as itself, a finish
        message as its status, an unknown id as an error; the client is closed once a payload failed. */
    method DispatchPayload(payload: string)
      requires Valid()
      modifies this`dispatched, this`closed
      ensures Valid()
      ensures dispatched == old(dispatched) + [DispatchOf(payload, version, known)]
      ensures forall m: Message :: IsInt32(version) && payload == Payload(m, version) ==>
                dispatched == old(dispatched) + [Expected(m, known)]
    {
      hide DispatchOf, Payload, Expected, HasFailure;
      var d := Create(payload, version, known);
      OneMoreDispatch(dispatched, d);
      dispatched := dispatched + [d];
      if IsFailure(d) {
        closed := true;
      }
    }

    /** Reading and dispatching the awaited payload. */
    method TakePayload(ghost payloads: seq<string>, ghost before: seq<Dispatch>)
      requires Valid() && 0 < pendingRead <= |received.Contents()|
      requires dispatched == before + DispatchAll(payloads, version, known)
      modifies this, received
      ensures Valid() && pendingRead == 0
      ensures received.Contents() == old(received.Contents())[old(pendingRead)..]
      ensures dispatched == before + DispatchAll(payloads + [old(received.Contents())[..old(pendingRead)]], version, known)
    {
      hide DispatchOf;
      var buffer := new char[pendingRead];
      var read := received.Read(buffer, pendingRead);
      pendingRead := 0;
      DispatchSplit(payloads, [buffer[..read]], version, known);
      DispatchOne(buffer[..read], version, known);
      DispatchPayload(buffer[..read]);
    }

    /** Reading the length of the next payload. */
    method TakeLength()
      requires Valid() && pendingRead == 0 && |received.Contents()| >= 4
      requires Deframe(0, received.Contents()).Cut?
      modifies this`pendingRead, received
      ensures Valid() && pendingRead > 0
      ensures received.Contents() == old(received.Contents())[4..]
      ensures Deframe(pendingRead, received.Contents()) == old(Deframe(0, received.Contents()))
    {
      var b := new char[4];
      var read := received.Read(b, 4);
      pendingRead := Wrap32(FromOctets(b[..read]));
    }

    /** `all` is what has been cut and dispatched since `before`, followed by what is still queued. */
    ghost predicate Cuts(all: Cut, payloads: seq<string>, before: seq<Dispatch>)
      reads this, received
    {
      && Valid() && all.Cut?
      && InFront(payloads, Deframe(pendingRead, received.Contents())) == all
      && dispatched == before + DispatchAll(payloads, version, known)
    }

    /** One turn of the loop behind the push; false where the source breaks out. */
    method TakeNext(ghost all: Cut, ghost payloads: seq<string>, ghost before: seq<Dispatch>)
      returns (more: bool, ghost payloads': seq<string>)
      requires Cuts(all, payloads, before)
      modifies this, received
      ensures Cuts(all, payloads', before)
      ensures Valid() && |received.Contents()| <= |old(received.Contents())|
      ensures more ==> |received.Contents()| < |old(received.Contents())|
      ensures !more ==> all == Cut(payloads', pendingRead, received.Contents())
    {
      hide Deframe, DispatchAll, InFront, HasFailure, Buffers.Valid, Buffers.Contents;
      payloads' := payloads;
      InFrontCut(payloads, Deframe(pendingRead, received.Contents()));
      DeframeStep(payloads, pendingRead, received.Contents());
      var available := received.Size();
      if available == 0 {
        return false, payloads;
      }
      if pendingRead == 0 {
        if available < 4 {
          return false, payloads;
        }
        TakeLength();
        available := available - 4;
        DeframeStep(payloads, pendingRead, received.Contents());
      }
      if available < pendingRead {
        return false, payloads;
      }
      payloads' := payloads + [received.Contents()[..pendingRead]];
      TakePayload(payloads, before);
      more := true;
    }

    /** The loop of `onDataAvailable` once the new bytes are queued. */
    method TakeAll(ghost all: Cut, ghost before: seq<Dispatch>)
      requires Cuts(all, [], before)
      modifies this, received
      ensures Valid()
      ensures all == Cut(all.payloads, pendingRead, received.Contents())
      ensures dispatched == before + DispatchAll(all.payloads, version, known)
    {
      ghost var payloads := [];
      var more := true;
      assert Valid();
      hide Cuts, Deframe, DispatchAll, InFront, HasFailure, Buffers.Valid, Buffers.Contents;
      while more
        invariant Valid() && Cuts(all, payloads, before)
        invariant !more ==> all == Cut(payloads, pendingRead, received.Contents())
        decreases |received.Contents()|, more
      {
        more, payloads := TakeNext(all, payloads, before);
      }
      CutsDispatched(all, payloads, before);
    }

    lemma CutsDispatched(all: Cut, payloads: seq<string>, before: seq<Dispatch>)
      requires Cuts(all, payloads, before)
      ensures dispatched == before + DispatchAll(payloads, version, known)
    {
    }

    /** `onDataAvailable`.  The stream must be framed: the source asserts that every length is positive. */
    method OnDataAvailable(data: string)
      requires Valid() && Cutting(data).Cut?
      modifies this, received
      ensures Valid()
      ensures pendingRead == old(Cutting(data)).pending && received.Contents() == old(Cutting(data)).rest
      ensures dispatched == old(dispatched) + DispatchAll(old(Cutting(data)).payloads, version, known)
    {
      ghost var all, before := Cutting(data), dispatched;
      InFrontOfNothing(all);
      assert before + [] == before && DispatchAll([], version, known) == [];
      assert received.Contents() + [] == received.Contents();
      hide Deframe, DispatchAll, InFront, HasFailure;
      // the first turn of the loop takes the bytes over and leaves `data` empty
      if data != [] {
        received.Push(data);
      }
      TakeAll(all, before);
    }
  }

  lemma DispatchOne(payload: string, version: int, known: set<char>)
    ensures DispatchAll([payload], version, known) == [DispatchOf(payload, version, known)]
  {
    assert [payload][1..] == [];
  }

  lemma InFrontCut(payloads: seq<string>, c: Cut)
    ensures InFront(payloads, c).Cut? <==> c.Cut?
  {
  }

  /** One turn of the loop, seen from the stream. */
  lemma DeframeStep(payloads: seq<string>, pending: nat, t: string)
    requires InFront(payloads, Deframe(pending, t)).Cut?
    ensures pending == 0 && |t| < 4 ==> InFront(payloads, Deframe(pending, t)) == Cut(payloads, 0, t)
    ensures pending > |t| ==> InFront(payloads, Deframe(pending, t)) == Cut(payloads, pending, t)
    ensures 0 < pending <= |t| ==>
              InFront(payloads, Deframe(pending, t)) == InFront(payloads + [t[..pending]], Deframe(0, t[pending..]))
  {
    var c := Deframe(pending, t);
    assert payloads + [] == payloads;
    if 0 < pending <= |t| {
      var d := Deframe(0, t[pending..]);
      assert payloads + ([t[..pending]] + d.payloads) == payloads + [t[..pending]] + d.payloads;
    }
  }

  function ExpectedAll(ms: seq<Message>, known: set<char>): seq<Dispatch> {
    if ms == [] then [] else [Expected(ms[0], known)] + ExpectedAll(ms[1..], known)
  }

  lemma {:induction false} DispatchPayloads(ms: seq<Message>, version: int, known: set<char>)
    requires IsInt32(version)
    ensures DispatchAll(Payloads(ms, version), version, known) == ExpectedAll(ms, known)
  {
    hide DispatchOf, Payload, Expected;
    if ms != [] {
      DispatchPayloads(ms[1..], version, known);
      Frames.DispatchPayload(ms[0], version, known);
      assert Payloads(ms, version)[1..] == Payloads(ms[1..], version);
    }
  }

  lemma FlatPrefix(chunks: seq<string>, i: nat)
    requires i < |chunks|
    ensures Flat(chunks[..i + 1]) == Flat(chunks[..i]) + chunks[i]
    ensures Flat(chunks[..i + 1]) <= Flat(chunks)
  {
    hide Flat;
    PrefixSnoc(chunks, i);
    FlatSnoc(chunks[..i], chunks[i]);
    SplitAt(chunks, i + 1);
    FlatJoin(chunks[..i + 1], chunks[i + 1..]);
  }

  lemma {:induction false} FlatJoin(a: seq<string>, b: seq<string>)
    ensures Flat(a + b) == Flat(a) + Flat(b)
  {
    if a == [] {
      assert a + b == b;
    } else {
      FlatJoin(a[1..], b);
      assert (a + b)[1..] == a[1..] + b && (a + b)[0] == a[0];
      Assoc(a[0], Flat(a[1..]), Flat(b));
    }
  }

  /** However the bytes of some frames are split into calls, and however many of them have arrived,
      the messages dispatched are those whose frames have arrived completely. */
  method ReceiveAll(c: Connection, chunks: seq<string>, ghost ms: seq<Message>)
    requires c.Valid() && c.pendingRead == 0 && c.received.Contents() == [] && c.dispatched == []
    requires IsInt32(c.version) && (forall m | m in ms :: Sendable(m))
    requires Flat(chunks) <= FramesOf(ms, c.version)
    modifies c, c.received
    ensures c.dispatched == ExpectedAll(ms[..WholeFrames(ms, c.version, |Flat(chunks)|)], c.known)
  {
    hide Deframe, DispatchAll, Flat;
    ghost var payloads, stream := [], Flat(chunks[..0]);
    assert stream == [] && DispatchAll([], c.version, c.known) == [] by { NothingYet(chunks, c.version, c.known); }
    DeframeNothing();
    for i := 0 to |chunks|
      invariant c.Valid() && stream == Flat(chunks[..i]) && stream <= FramesOf(ms, c.version)
      invariant Deframe(0, stream) == Cut(payloads, c.pendingRead, c.received.Contents())
      invariant c.dispatched == DispatchAll(payloads, c.version, c.known)
    {
      FlatPrefix(chunks, i);
      DeframePrefix(ms, c.version, stream + chunks[i]);
      DeframeSplit(0, stream, chunks[i]);
      ghost var more := c.Cutting(chunks[i]);
      DispatchSplit(payloads, more.payloads, c.version, c.known);
      c.OnDataAvailable(chunks[i]);
      payloads, stream := payloads + more.payloads, stream + chunks[i];
    }
    assert chunks[..|chunks|] == chunks;
    DeframePrefix(ms, c.version, stream);
    DispatchPayloads(ms[..WholeFrames(ms, c.version, |stream|)], c.version, c.known);
  }

  lemma NothingYet(chunks: seq<string>, version: int, known: set<char>)
    ensures Flat(chunks[..0]) == [] && DispatchAll([], version, known) == []
  {
  }
}
