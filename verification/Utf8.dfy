/**
 UTF-8 (section 3 of RFC 3629) and its emission by parse_string (cJSON/cJSON.c).
 Bytes are characters below 256.
 */
module Utf8 {
  import opened Common
  import opened Unsigned

  /** A Unicode scalar value. */
  predicate IsScalar(cp: nat) { cp < 0xD800 || 0xE000 <= cp < 0x110000 }

  function Length(cp: nat): nat {
    if cp < 0x80 then 1 else if cp < 0x800 then 2 else if cp < 0x10000 then 3 else 4
  }

  /** The octets of RFC 3629, leading octet first. */
  function Encode(cp: nat): (s: string)
    requires cp < 0x110000
    ensures |s| == Length(cp)
  {
    if cp < 0x80 then [Byte(cp)]
    else if cp < 0x800 then [Byte(0xC0 + cp / 64), Byte(0x80 + cp % 64)]
    else if cp < 0x10000 then [Byte(0xE0 + cp / 64 / 64), Byte(0x80 + cp / 64 % 64), Byte(0x80 + cp % 64)]
    else [Byte(0xF0 + cp / 64 / 64 / 64), Byte(0x80 + cp / 64 / 64 % 64), Byte(0x80 + cp / 64 % 64), Byte(0x80 + cp % 64)]
  }

  datatype Decoded = Malformed | Scalar(cp: nat, rest: string)

  predicate IsTail(s: string, i: nat) {
    i < |s| && 0x80 <= s[i] as int < 0xC0
  }

  /** The six payload bits of a continuation octet. */
  function Payload(c: char): nat
    requires 0x80 <= c as int < 0xC0
  {
    c as int - 0x80
  }

  /** A strict decoder: rejects overlong forms, surrogates and values beyond U+10FFFF. */
  function Decode(s: string): Decoded {
    if s == [] then Malformed
    else
      var b := s[0] as int;
      if b < 0x80 then Scalar(b, s[1..])
      else if 0xC2 <= b < 0xE0 && IsTail(s, 1) then Scalar((b - 0xC0) * 64 + Payload(s[1]), s[2..])
      else if 0xE0 <= b < 0xF0 && IsTail(s, 1) && IsTail(s, 2) then
        var cp := (b - 0xE0) * 4096 + Payload(s[1]) * 64 + Payload(s[2]);
        if 0x800 <= cp && IsScalar(cp) then Scalar(cp, s[3..]) else Malformed
      else if 0xF0 <= b < 0xF8 && IsTail(s, 1) && IsTail(s, 2) && IsTail(s, 3) then
        var cp := (b - 0xF0) * 262144 + Payload(s[1]) * 4096 + Payload(s[2]) * 64 + Payload(s[3]);
        if 0x10000 <= cp && IsScalar(cp) then Scalar(cp, s[4..]) else Malformed
      else Malformed
  }

  /** A strict decoder recovers every scalar value and stops right behind it. */
  lemma DecodeEncode(cp: nat, rest: string)
    requires IsScalar(cp)
    ensures Decode(Encode(cp) + rest) == Scalar(cp, rest)
  {
    var s := Encode(cp) + rest;
    assert s[Length(cp)..] == rest;
    assert forall i | 0 <= i < Length(cp) :: s[i] == Encode(cp)[i];
  }

  lemma SixBitsOff(q: nat, r: nat)
    requires r < 64
    ensures (q * 64 + r) / 64 == q && (q * 64 + r) % 64 == r
  {
  }

  lemma TwoOctets(s: string)
    requires |s| == 2 && 0xC2 <= s[0] as int < 0xE0 && IsTail(s, 1)
    ensures var cp := (s[0] as int - 0xC0) * 64 + Payload(s[1]); 0x80 <= cp < 0x800 && Encode(cp) == s
  {
    SixBitsOff(s[0] as int - 0xC0, Payload(s[1]));
  }

  lemma ThreeOctets(s: string)
    requires |s| == 3 && 0xE0 <= s[0] as int < 0xF0 && IsTail(s, 1) && IsTail(s, 2)
    ensures var cp := (s[0] as int - 0xE0) * 4096 + Payload(s[1]) * 64 + Payload(s[2]);
            0x800 <= cp ==> cp < 0x10000 && Encode(cp) == s
  {
    var q := (s[0] as int - 0xE0) * 64 + Payload(s[1]);
    SixBitsOff(s[0] as int - 0xE0, Payload(s[1]));
    SixBitsOff(q, Payload(s[2]));
    assert q * 64 == (s[0] as int - 0xE0) * 4096 + Payload(s[1]) * 64;
  }

  lemma FourOctets(s: string)
    requires |s| == 4 && 0xF0 <= s[0] as int < 0xF8 && IsTail(s, 1) && IsTail(s, 2) && IsTail(s, 3)
    ensures var cp := (s[0] as int - 0xF0) * 262144 + Payload(s[1]) * 4096 + Payload(s[2]) * 64 + Payload(s[3]);
            0x10000 <= cp < 0x110000 ==> Encode(cp) == s
  {
    var q := (s[0] as int - 0xF0) * 64 + Payload(s[1]);
    var p := q * 64 + Payload(s[2]);
    SixBitsOff(s[0] as int - 0xF0, Payload(s[1]));
    SixBitsOff(q, Payload(s[2]));
    SixBitsOff(p, Payload(s[3]));
    assert q * 64 == (s[0] as int - 0xF0) * 4096 + Payload(s[1]) * 64;
    assert p * 64 == (s[0] as int - 0xF0) * 262144 + Payload(s[1]) * 4096 + Payload(s[2]) * 64;
  }

  /** And it recovers nothing else: what it accepts is the encoding of a scalar value. */
  lemma EncodeDecoded(s: string)
    requires Decode(s).Scalar?
    ensures IsScalar(Decode(s).cp) && s == Encode(Decode(s).cp) + Decode(s).rest
  {
    var b := s[0] as int;
    hide Encode, Length;
    if b < 0x80 {
      OneOctet(s[..1]);
      assert s == s[..1] + s[1..];
    } else if b < 0xE0 {
      TwoOctets(s[..2]);
      assert s == s[..2] + s[2..];
    } else if b < 0xF0 {
      ThreeOctets(s[..3]);
      assert s == s[..3] + s[3..];
    } else {
      FourOctets(s[..4]);
      assert s == s[..4] + s[4..];
    }
  }

  lemma OneOctet(s: string)
    requires |s| == 1 && s[0] as int < 0x80
    ensures Encode(s[0] as int) == s
  {
  }

  method ByteCount(uc: bv32) returns (len: nat)
    requires uc < 0x110000
    ensures len == Length(Value(uc)) && Value(uc) < 0x110000
  {
    hide Value;
    LengthCompares(uc);
    ValueBound(uc);
    len := 4;
    if uc < 0x80 {
      len := 1;
    } else if uc < 0x800 {
      len := 2;
    } else if uc < 0x10000 {
      len := 3;
    }
  }

  /** One case of the switch: a continuation byte, and six bits fewer. */
  method PutTail(out: array<char>, p: nat, uc: bv32) returns (rest: bv32)
    requires p < out.Length && uc < 0x20_0000
    modifies out
    ensures out[..] == old(out[..])[p := Byte(0x80 + Value(uc) % 64)]
    ensures Value(rest) == Value(uc) / 64 && rest < 0x20_0000
  {
    hide Value, Stored;
    TailMask(uc);
    out[p] := Stored((uc | 0x80) & 0xBF);
    rest := uc >> 6;
  }

  /** The last case: the first byte with its mark. */
  method PutLead(out: array<char>, p: nat, uc: bv32, len: nat)
    requires p < out.Length && uc < 0x20_0000 && 1 <= len <= 4
    requires Value(uc) < LeadRoom(len)
    modifies out
    ensures out[..] == old(out[..])[p := Byte(LeadMark(len) + Value(uc))]
  {
    hide Value, Stored, FirstByteMark;
    LeadMask(uc, len);
    out[p] := Stored(uc | FirstByteMark(len));
  }

  /** The fall-through switch of parse_string: reserve the room, then fill it from the back. */
  method Emit(out: array<char>, at: nat, cp: bv32) returns (len: nat)
    requires cp < 0x110000 && at + Length(Value(cp)) <= out.Length
    modifies out
    ensures out[..at] == old(out[..at])
    ensures len == Length(Value(cp)) && Value(cp) < 0x110000 && out[at..at + len] == Encode(Value(cp))
  {
    hide Value;
    len := ByteCount(cp);
    var p, uc := at + len, cp;
    if len >= 4 {
      p := p - 1;
      uc := PutTail(out, p, uc);
    }
    if len >= 3 {
      p := p - 1;
      uc := PutTail(out, p, uc);
    }
    if len >= 2 {
      p := p - 1;
      uc := PutTail(out, p, uc);
    }
    p := p - 1;
    PutLead(out, p, uc, len);
  }
}
