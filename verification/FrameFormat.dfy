/**
 The bytes of a frame, and what is dispatched for payloads of every kind.
 */
module FrameFormat {
  import opened Common
  import opened Wire
  import opened Frames
  import opened WireFormat
  import R = Receiver

  /** Length, version, id, flags and body, numbers with the least significant byte first. */
  lemma FrameBytes(m: Message, version: int)
    requires IsInt32(version) && |m.body| + 6 < Two32
    ensures var f, n, v := Frame(m, version), |m.body| + 6, if version < 0 then version + Two32 else version;
            && |f| == |m.body| + 10
            && f[0] as int == n % 0x100 && f[1] as int == n / 0x100 % 0x100
            && f[2] as int == n / 0x10000 % 0x100 && f[3] as int == n / 0x100_0000
            && f[4] as int == v % 0x100 && f[5] as int == v / 0x100 % 0x100
            && f[6] as int == v / 0x10000 % 0x100 && f[7] as int == v / 0x100_0000
            && f[8] == m.id && f[9] == m.flags && f[10..] == m.body
  {
    var n, v := |m.body| + 6, if version < 0 then version + Two32 else version;
    FourBytes(n);
    FourBytes(v);
    SignedBytes(version);
    var a, b := U32(n), I32(version);
    Laid(a, b, m.id, m.flags, m.body);
    assert Frame(m, version) == a + b + [m.id] + [m.flags] + m.body;
    hide U32, I32;
  }

  /** Whatever follows its length is cut off as a payload, and a length that is not positive ends all. */
  lemma AnyPayloadIsCut(n: int, payload: string, rest: string)
    requires IsInt32(n) && (n > 0 ==> |payload| == n)
    ensures Deframe(0, I32(n) + (payload + rest)) == if n > 0 then Before(payload, Deframe(0, rest)) else Unframed
  {
    DecodeI32Encoded(n, payload + rest);
    hide I32, FromOctets;
    var t := I32(n) + (payload + rest);
    assert t[..4] == I32(n) && t[4..] == payload + rest;
    assert n > 0 ==> (payload + rest)[..n] == payload && (payload + rest)[n..] == rest;
  }

  lemma Laid(a: string, b: string, id: char, flags: char, body: string)
    requires |a| == 4 && |b| == 4
    ensures var f := a + b + [id] + [flags] + body;
            && |f| == |body| + 10 && (forall k | 0 <= k < 4 :: f[k] == a[k] && f[k + 4] == b[k])
            && f[8] == id && f[9] == flags && f[10..] == body
  {
  }

  /** A message of another version is an error that says which. */
  lemma OtherVersion(m: Message, theirs: int, ours: int, known: set<char>)
    requires IsInt32(theirs) && theirs != ours
    ensures DispatchOf(Payload(m, theirs), ours, known) == VersionError(theirs)
  {
    var rest := [m.id] + [m.flags] + m.body;
    assert Payload(m, theirs) == I32(theirs) + rest;
    DecodeI32Encoded(theirs, rest);
    hide DecodeI32, I32, Payload;
  }

  /** Unknown ids are errors, a finish message (id 2) gives its status, any other message itself. */
  lemma DispatchedAs(m: Message, version: int, known: set<char>)
    requires IsInt32(version)
    ensures var d := DispatchOf(Payload(m, version), version, known);
            && (m.id !in known ==> d == IdError(m.id))
            && (m.id in known && m.id as int != 2 ==> d == NewMessage(m))
            && (forall status, more | IsInt32(status) && m.body == I32(status) + more ::
                  m.id in known && m.id as int == 2 ==> d == Finished(status))
            && (m.id in known && m.id as int == 2 && |m.body| < 4 ==> d == Truncated)
  {
    Frames.DispatchPayload(m, version, known);
    forall status, more | IsInt32(status) && m.body == I32(status) + more
      ensures DecodeI32(m.body) == Got(status, more)
    {
      DecodeI32Encoded(status, more);
    }
    hide DispatchOf, Payload, I32;
  }

  /** Everything that gives no message and no status is a failure and closes the client. */
  lemma FailuresAre(d: Dispatch)
    ensures R.IsFailure(d) <==> !d.NewMessage? && !d.Finished?
  {
  }

  /** A payload too short for its header is one. */
  lemma TooShort(payload: string, version: int, known: set<char>)
    requires |payload| < 4
    ensures DispatchOf(payload, version, known) == Truncated
  {
  }
}
