/**
 Message frames (rct/Message.h, rct/Message.cpp) and their reassembly from a byte stream that
 arrives in arbitrary pieces (rct/Connection.cpp).
 */
module Frames {
  import opened Common
  import opened Wire
  import opened Buffers

  const HeaderExtra: nat := 6

  /** What one message puts on the wire: length, version, id, flags and body. */
  datatype Message = Message(id: char, flags: char, body: string)

  function Header(m: Message, version: int): string {
    U32(|m.body| + HeaderExtra) + I32(version) + [m.id] + [m.flags]
  }

  function Frame(m: Message, version: int): string { Header(m, version) + m.body }

  /** The part of a frame behind its length. */
  function Payload(m: Message, version: int): (p: string)
    ensures |p| == |m.body| + HeaderExtra
  {
    I32(version) + [m.id] + [m.flags] + m.body
  }

  function FramesOf(ms: seq<Message>, version: int): string {
    if ms == [] then [] else Frame(ms[0], version) + FramesOf(ms[1..], version)
  }

  // ---- Dispatching one payload ----

  const FinishId: char := 2 as char

  /** What becomes of a payload.  `Truncated` payloads end before the fields the source reads. */
  datatype Dispatch =
    | NewMessage(message: Message)
    | Finished(status: int)
    | VersionError(got: int)
    | IdError(id: char)
    | Truncated

  /** Message::create and the dispatch behind it; `known` are the registered message ids. */
  function DispatchOf(payload: string, version: int, known: set<char>): Dispatch {
    var ver := DecodeI32(payload);
    if ver.Short? then Truncated
    else if ver.value != version then VersionError(ver.value)
    else if |ver.rest| < 2 then Truncated
    else
      var m := Message(ver.rest[0], ver.rest[1], ver.rest[2..]);
      if m.id !in known then IdError(m.id)
      else if m.id == FinishId then
        (var status := DecodeI32(m.body); if status.Got? then Finished(status.value) else Truncated)
      else NewMessage(m)
  }

  function DispatchAll(payloads: seq<string>, version: int, known: set<char>): seq<Dispatch> {
    if payloads == [] then [] else [DispatchOf(payloads[0], version, known)] + DispatchAll(payloads[1..], version, known)
  }

  // ---- Cutting a stream into payloads ----

  /** The payloads completed, the length awaited (0 if none) and the bytes left over. */
  datatype Cut = Cut(payloads: seq<string>, pending: nat, rest: string) | Unframed

  function Before(payload: string, c: Cut): Cut {
    if c.Cut? then c.(payloads := [payload] + c.payloads) else Unframed
  }

  /** The meaning of a stream when `pending` bytes are awaited; `Unframed` if a length is not positive. */
  function Deframe(pending: nat, t: string): Cut
    decreases |t|, pending == 0
  {
    if pending == 0 then
      if |t| < 4 then Cut([], 0, t)
      else
        var n := Wrap32(FromOctets(t[..4]));
        if n <= 0 then Unframed else Deframe(n, t[4..])
    else if |t| < pending then Cut([], pending, t)
    else Before(t[..pending], Deframe(0, t[pending..]))
  }

  /** More payloads in front of those of `c`. */
  function InFront(payloads: seq<string>, c: Cut): Cut {
    if c.Cut? then c.(payloads := payloads + c.payloads) else Unframed
  }

  lemma InFrontOfNothing(c: Cut)
    ensures InFront([], c) == c
  {
    if c.Cut? { assert [] + c.payloads == c.payloads; }
  }

  lemma BeforeInFront(payload: string, payloads: seq<string>, c: Cut)
    ensures Before(payload, InFront(payloads, c)) == InFront([payload] + payloads, c)
  {
    if c.Cut? { assert [payload] + (payloads + c.payloads) == [payload] + payloads + c.payloads; }
  }

  /** Cutting does not depend on where the stream was split. */
  lemma {:induction false} DeframeSplit(pending: nat, a: string, b: string)
    requires Deframe(pending, a).Cut?
    ensures var c := Deframe(pending, a); Deframe(pending, a + b) == InFront(c.payloads, Deframe(c.pending, c.rest + b))
    decreases |a|, pending == 0
  {
    hide InFront, Wrap32, FromOctets;
    var c := Deframe(pending, a);
    if pending == 0 && |a| >= 4 {
      var n := Wrap32(FromOctets(a[..4]));
      assert (a + b)[..4] == a[..4] && (a + b)[4..] == a[4..] + b;
      DeframeSplit(n, a[4..], b);
    } else if pending > 0 && |a| >= pending {
      assert (a + b)[..pending] == a[..pending] && (a + b)[pending..] == a[pending..] + b;
      DeframeSplit(0, a[pending..], b);
      var d := Deframe(0, a[pending..]);
      BeforeInFront(a[..pending], d.payloads, Deframe(d.pending, d.rest + b));
    } else {
      InFrontOfNothing(Deframe(pending, a + b));
    }
  }

  lemma {:induction false} DispatchSplit(a: seq<string>, b: seq<string>, version: int, known: set<char>)
    ensures DispatchAll(a + b, version, known) == DispatchAll(a, version, known) + DispatchAll(b, version, known)
  {
    hide DispatchOf;
    if a == [] {
      assert a + b == b;
    } else {
      DispatchSplit(a[1..], b, version, known);
      assert (a + b)[1..] == a[1..] + b;
    }
  }

  // ---- Streams of frames ----

  /** A message whose frame length fits its signed field. */
  ghost predicate Sendable(m: Message) { |m.body| + HeaderExtra < 0x8000_0000 }

  function Payloads(ms: seq<Message>, version: int): seq<string> {
    if ms == [] then [] else [Payload(ms[0], version)] + Payloads(ms[1..], version)
  }

  lemma FrameIsPayload(m: Message, version: int)
    requires Sendable(m)
    ensures Frame(m, version) == U32(|Payload(m, version)|) + Payload(m, version)
  {
    var l, p := U32(|m.body| + HeaderExtra), I32(version);
    assert l + p + [m.id] + [m.flags] + m.body == l + (p + [m.id] + [m.flags] + m.body);
  }

  lemma LengthDecodes(n: nat)
    requires n < 0x8000_0000
    ensures Wrap32(FromOctets(U32(n))) == n
  {
    Pow4();
    OctetsRoundTrip(n, 4);
  }

  /** A frame is cut off as its payload. */
  lemma DeframeFrame(m: Message, version: int, t: string)
    requires Sendable(m)
    ensures Deframe(0, Frame(m, version) + t) == Before(Payload(m, version), Deframe(0, t))
  {
    var p := Payload(m, version);
    FrameIsPayload(m, version);
    LengthDecodes(|p|);
    hide Payload, Frame, U32, FromOctets;
    var s := U32(|p|) + p + t;
    assert s[..4] == U32(|p|) && s[4..] == p + t;
    assert (p + t)[..|p|] == p && (p + t)[|p|..] == t;
    assert Deframe(0, s) == Deframe(|p|, p + t);
  }

  /** A whole number of frames is cut into exactly their payloads, leaving what follows. */
  lemma {:induction false} DeframeFrames(ms: seq<Message>, version: int, t: string)
    requires forall m | m in ms :: Sendable(m)
    ensures Deframe(0, FramesOf(ms, version) + t) == InFront(Payloads(ms, version), Deframe(0, t))
  {
    hide Deframe, Frame, Payload;
    if ms == [] {
      assert [] + t == t;
      InFrontOfNothing(Deframe(0, t));
    } else {
      DeframeFrame(ms[0], version, FramesOf(ms[1..], version) + t);
      DeframeFrames(ms[1..], version, t);
      Assoc(Frame(ms[0], version), FramesOf(ms[1..], version), t);
      var c, p := Deframe(0, t), Payload(ms[0], version);
      if c.Cut? { assert [p] + (Payloads(ms[1..], version) + c.payloads) == Payloads(ms, version) + c.payloads; }
    }
  }

  /** A proper prefix of a frame yields nothing yet. */
  lemma DeframePartial(m: Message, version: int, t: string)
    requires Sendable(m) && t <= Frame(m, version) && |t| < |Frame(m, version)|
    ensures Deframe(0, t).Cut? && Deframe(0, t).payloads == []
  {
    var p := Payload(m, version);
    FrameIsPayload(m, version);
    LengthDecodes(|p|);
    hide Payload, Frame, U32, FromOctets;
    if |t| >= 4 {
      assert t[..4] == Frame(m, version)[..4] == U32(|p|);
      assert |t[4..]| < |p|;
      assert Deframe(0, t) == Deframe(|p|, t[4..]);
    }
  }

  /** How many whole frames of `ms` lie within the first `n` bytes. */
  function WholeFrames(ms: seq<Message>, version: int, n: nat): (k: nat)
    ensures k <= |ms|
  {
    if ms == [] || n < |Frame(ms[0], version)| then 0
    else 1 + WholeFrames(ms[1..], version, n - |Frame(ms[0], version)|)
  }

  /** From any prefix of the stream exactly the whole frames in it are cut. */
  lemma {:induction false} DeframePrefix(ms: seq<Message>, version: int, t: string)
    requires forall m | m in ms :: Sendable(m)
    requires t <= FramesOf(ms, version)
    ensures Deframe(0, t).Cut?
    ensures Deframe(0, t).payloads == Payloads(ms[..WholeFrames(ms, version, |t|)], version)
  {
    hide Deframe, Frame, Payload;
    if ms == [] {
      assert t == [];
      DeframeNothing();
    } else {
      var f := Frame(ms[0], version);
      if |t| < |f| {
        assert t == FramesOf(ms, version)[..|t|] == f[..|t|];
        DeframePartial(ms[0], version, t);
      } else {
        var t', k := t[|f|..], WholeFrames(ms[1..], version, |t| - |f|);
        assert t[..|f|] == FramesOf(ms, version)[..|f|] == f && t == f + t';
        assert t' == FramesOf(ms, version)[|f|..][..|t'|] && FramesOf(ms, version)[|f|..] == FramesOf(ms[1..], version);
        DeframePrefix(ms[1..], version, t');
        DeframeFrame(ms[0], version, t');
        assert ms[..k + 1][1..] == ms[1..][..k] && ms[..k + 1][0] == ms[0];
      }
    }
  }

  lemma DeframeNothing()
    ensures Deframe(0, []) == Cut([], 0, [])
  {
  }

  /** What a message should be received as. */
  function Expected(m: Message, known: set<char>): Dispatch {
    if m.id !in known then IdError(m.id)
    else if m.id == FinishId then
      (var status := DecodeI32(m.body); if status.Got? then Finished(status.value) else Truncated)
    else NewMessage(m)
  }

  lemma DispatchPayload(m: Message, version: int, known: set<char>)
    requires IsInt32(version)
    ensures DispatchOf(Payload(m, version), version, known) == Expected(m, known)
  {
    var behind := [m.id] + [m.flags] + m.body;
    assert Payload(m, version) == I32(version) + behind;
    DecodeI32Encoded(version, behind);
    assert behind[2..] == m.body;
  }
}
