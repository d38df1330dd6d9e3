/**
 The `unsigned` arithmetic of cJSON/cJSON.c: shifts, masks and comparisons of 32-bit words, in terms
 of the numbers the words hold.
 */
module Unsigned {
  import opened Common

  function Bit(u: bv32, mask: bv32): nat { if u & mask != 0 then 1 else 0 }

  function Nibble(u: bv32): nat { Bit(u, 1) + 2 * Bit(u, 2) + 4 * Bit(u, 4) + 8 * Bit(u, 8) }

  function Octet(u: bv32): nat { Nibble(u) + 16 * Nibble(u >> 4) }

  /** The number held by a word below 2^24. */
  function Value(u: bv32): nat { Octet(u) + 0x100 * Octet(u >> 8) + 0x10000 * Octet(u >> 16) }

  lemma Zero()
    ensures Nibble(0) == 0 && Octet(0) == 0
  {
  }

  lemma SameOctet(u: bv32, v: bv32)
    requires u & 0xFF == v & 0xFF
    ensures Octet(u) == Octet(v)
  {
  }

  lemma OctetBound(u: bv32)
    ensures Octet(u) < 0x100
  {
  }

  /** What is left of a word stored into a `char`. */
  function Stored(u: bv32): char {
    OctetBound(u);
    Byte(Octet(u))
  }

  // ---- h = h << 4 and adding a digit ----

  lemma ShiftInBits(h: bv32, d: bv32)
    requires h < 0x1000 && d < 16
    ensures var x := (h << 4) + d;
            && x >> 4 == h && x >> 8 == h >> 4 && (x >> 8) >> 4 == h >> 8 && x >> 16 == 0 && x & 15 == d & 15
            && x < 0x10000 && (h < 0x10 ==> x < 0x100) && (h < 0x100 ==> x < 0x1000)
    ensures h >> 16 == 0 && (h >> 8) >> 4 == 0 && d >> 4 == 0 && d >> 8 == 0 && d >> 16 == 0
  {
  }

  lemma SameNibble(u: bv32, v: bv32)
    requires u & 15 == v & 15
    ensures Nibble(u) == Nibble(v)
  {
  }

  lemma ShiftInNibbles(x: bv32, h: bv32, d: bv32)
    requires x >> 4 == h && x >> 8 == h >> 4 && (x >> 8) >> 4 == h >> 8 && x >> 16 == 0 && Nibble(x) == Nibble(d)
    requires h >> 16 == 0 && (h >> 8) >> 4 == 0 && d >> 4 == 0 && d >> 8 == 0 && d >> 16 == 0
    ensures Value(x) == 16 * Value(h) + Value(d)
  {
    Zero();
    hide Nibble;
  }

  lemma ShiftInParts(x: bv32, h: bv32, d: bv32)
    requires x >> 4 == h && x >> 8 == h >> 4 && (x >> 8) >> 4 == h >> 8 && x >> 16 == 0 && x & 15 == d & 15
    requires h >> 16 == 0 && (h >> 8) >> 4 == 0 && d >> 4 == 0 && d >> 8 == 0 && d >> 16 == 0
    ensures Value(x) == 16 * Value(h) + Value(d)
  {
    hide *;
    SameNibble(x, d);
    ShiftInNibbles(x, h, d);
  }

  lemma ShiftIn(h: bv32, d: bv32)
    requires h < 0x1000 && d < 16
    ensures Value((h << 4) + d) == 16 * Value(h) + Value(d)
    ensures (h << 4) + d < 0x10000 && (h < 0x10 ==> (h << 4) + d < 0x100) && (h < 0x100 ==> (h << 4) + d < 0x1000)
  {
    hide *;
    ShiftInBits(h, d);
    ShiftInParts((h << 4) + d, h, d);
  }

  /** A hexadecimal digit as a word. */
  function Word(n: nat): bv32
    requires n < 16
  {
    n as bv32
  }

  lemma WordHolds(n: nat)
    requires n < 16
    ensures Word(n) < 16 && Value(Word(n)) == n
  {
    assert n in {0, 1, 2, 3, 4, 5, 6, 7, 8, 9, 10, 11, 12, 13, 14, 15};
  }

  // ---- Surrogates ----

  lemma HighOctetOfSurrogate(u: bv32)
    requires u < 0x10000
    ensures 0xD800 <= u <= 0xDBFF <==> 0xD8 <= Octet(u >> 8) < 0xDC
    ensures 0xDC00 <= u <= 0xDFFF <==> 0xDC <= Octet(u >> 8) < 0xE0
    ensures u >> 16 == 0
  {
  }

  lemma IsZero(u: bv32)
    requires u < 0x10000
    ensures u == 0 <==> Octet(u) == 0 && Octet(u >> 8) == 0
  {
  }

  /** The comparisons of parse_string on a UTF-16 unit. */
  lemma UnitCompares(u: bv32)
    requires u < 0x10000
    ensures 0xD800 <= u <= 0xDBFF <==> 0xD800 <= Value(u) < 0xDC00
    ensures 0xDC00 <= u <= 0xDFFF <==> 0xDC00 <= Value(u) < 0xE000
    ensures u == 0 <==> Value(u) == 0
    ensures Value(u) < 0x10000
  {
    HighOctetOfSurrogate(u);
    IsZero(u);
    OctetBound(u);
    OctetBound(u >> 8);
    Zero();
    hide Octet;
  }

  lemma Low10Bits(u: bv32)
    requires u < 0x10000
    ensures var w := u & 0x3FF; w & 0xFF == u & 0xFF && w >> 8 == (u >> 8) & 3 && w >> 16 == 0 && u >> 16 == 0 && w < 0x400
  {
  }

  lemma Low2(w: bv32)
    requires w < 0x100
    ensures Octet(w & 3) == Octet(w) % 4
  {
  }

  lemma HighByte(u: bv32)
    requires u < 0x10000
    ensures u >> 8 < 0x100
  {
  }

  lemma Low10(u: bv32)
    requires u < 0x10000
    ensures Value(u & 0x3FF) == Value(u) % 0x400 && u & 0x3FF < 0x400
  {
    Low10Bits(u);
    SameOctet(u & 0x3FF, u);
    HighByte(u);
    Low2(u >> 8);
    OctetBound(u);
    Zero();
    LowBits(Octet(u), Octet(u >> 8));
    hide Octet;
  }

  lemma LowBits(a: nat, b: nat)
    requires a < 0x100
    ensures (a + 0x100 * b) % 0x400 == a + 0x100 * (b % 4)
  {
    assert a + 0x100 * b == 0x400 * (b / 4) + (a + 0x100 * (b % 4));
  }

  lemma ShiftByTwoBits(a: bv32, c: bv32)
    requires a < 0x400 && c < 4
    ensures var y := (a << 2) | c;
            && Bit(y, 1) == Bit(c, 1) && Bit(y, 2) == Bit(c, 2) && Bit(y, 4) == Bit(a, 1) && Bit(y, 8) == Bit(a, 2)
            && y >> 4 == a >> 2 && y >> 8 == a >> 6 && (y >> 8) >> 4 == 0
    ensures c >> 4 == 0 && Bit(c, 4) == 0 && Bit(c, 8) == 0
    ensures (a >> 8) >> 4 == 0 && Bit(a >> 8, 4) == 0 && Bit(a >> 8, 8) == 0
  {
  }

  lemma NibblesAcross(a: bv32)
    ensures Nibble(a >> 2) == Bit(a, 4) + 2 * Bit(a, 8) + 4 * Bit(a >> 4, 1) + 8 * Bit(a >> 4, 2)
    ensures Nibble(a >> 6) == Bit(a >> 4, 4) + 2 * Bit(a >> 4, 8) + 4 * Bit(a >> 8, 1) + 8 * Bit(a >> 8, 2)
  {
  }

  lemma NibbleBits(u: bv32)
    ensures Nibble(u) == Bit(u, 1) + 2 * Bit(u, 2) + 4 * Bit(u, 4) + 8 * Bit(u, 8)
  {
  }

  lemma ShiftByTwo(a: bv32, c: bv32)
    requires a < 0x400 && c < 4
    ensures var y := (a << 2) | c; Octet(y) + 0x100 * Octet(y >> 8) == 4 * (Octet(a) + 0x100 * Octet(a >> 8)) + Octet(c)
  {
    hide Bit, Nibble;
    ShiftByTwoBits(a, c);
    NibblesAcross(a);
    Zero();
    NibbleBits((a << 2) | c);
    NibbleBits(a);
    NibbleBits(a >> 4);
    NibbleBits(a >> 8);
    NibbleBits(c);
  }

  lemma JoinBits(a: bv32, b: bv32)
    requires a < 0x400 && b < 0x400
    ensures var x, y := (a << 10) | b, (a << 2) | (b >> 8);
            && x >> 8 == y && x >> 16 == y >> 8 && x & 0xFF == b & 0xFF && x < 0x100000
            && a >> 16 == 0 && b >> 16 == 0 && b >> 8 < 4
  {
  }

  lemma JoinParts(x: bv32, y: bv32, a: bv32, b: bv32, c: bv32)
    requires a < 0x400 && c == b >> 8 && c < 4 && y == (a << 2) | c
    requires x >> 8 == y && x >> 16 == y >> 8 && x & 0xFF == b & 0xFF && a >> 16 == 0 && b >> 16 == 0
    ensures Value(x) == 0x400 * Value(a) + Value(b)
  {
    SameOctet(x, b);
    ShiftByTwo(a, c);
    Zero();
    hide Octet;
  }

  lemma Join(a: bv32, b: bv32)
    requires a < 0x400 && b < 0x400
    ensures Value((a << 10) | b) == 0x400 * Value(a) + Value(b) && (a << 10) | b < 0x100000
  {
    hide *;
    JoinBits(a, b);
    JoinParts((a << 10) | b, (a << 2) | (b >> 8), a, b, b >> 8);
  }

  lemma AddBits(a: bv32)
    requires a < 0x100000
    ensures var x := 0x10000 + a;
            && x & 0xFF == a & 0xFF && (x >> 8) & 0xFF == (a >> 8) & 0xFF && x >> 16 == (a >> 16) + 1 && x < 0x110000
    ensures a >> 16 < 16
  {
  }

  lemma Increment(a: bv32)
    requires a < 16
    ensures Octet(a + 1) == Octet(a) + 1
  {
  }

  lemma AddParts(x: bv32, a: bv32)
    requires x & 0xFF == a & 0xFF && (x >> 8) & 0xFF == (a >> 8) & 0xFF && x >> 16 == (a >> 16) + 1 && a >> 16 < 16
    ensures Value(x) == 0x10000 + Value(a)
  {
    SameOctet(x, a);
    SameOctet(x >> 8, a >> 8);
    Increment(a >> 16);
    hide Octet;
  }

  lemma AddPlane(a: bv32)
    requires a < 0x100000
    ensures Value(0x10000 + a) == 0x10000 + Value(a) && 0x10000 + a < 0x110000
  {
    hide *;
    AddBits(a);
    AddParts(0x10000 + a, a);
  }

  /** The word parse_string makes of a surrogate pair (section 2.2 of RFC 2781). */
  lemma PairMask(u: bv32, v: bv32)
    requires u < 0x10000 && v < 0x10000
    ensures var uc := 0x10000 + (((u & 0x3FF) << 10) | (v & 0x3FF));
            Value(uc) == 0x10000 + Value(u) % 0x400 * 0x400 + Value(v) % 0x400 && uc < 0x110000
  {
    hide *;
    var a, b := u & 0x3FF, v & 0x3FF;
    Low10(u);
    Low10(v);
    PairOf(a, b);
  }

  lemma PairOf(a: bv32, b: bv32)
    requires a < 0x400 && b < 0x400
    ensures Value(0x10000 + ((a << 10) | b)) == 0x10000 + Value(a) * 0x400 + Value(b) && 0x10000 + ((a << 10) | b) < 0x110000
  {
    hide *;
    Join(a, b);
    AddPlane((a << 10) | b);
  }

  // ---- Emitting UTF-8 ----

  lemma HighOctets(u: bv32)
    requires u < 0x20_0000
    ensures u < 0x80 <==> Nibble(u >> 4) < 8 && Octet(u >> 8) == 0 && Octet(u >> 16) == 0
    ensures u < 0x800 <==> Octet(u >> 8) < 8 && Octet(u >> 16) == 0
    ensures u < 0x10000 <==> Octet(u >> 16) == 0
    ensures Octet(u >> 16) < 0x20
  {
  }

  lemma NibbleBound(u: bv32)
    ensures Nibble(u) < 16
  {
  }

  /** The comparisons that choose the length. */
  lemma LengthCompares(u: bv32)
    requires u < 0x20_0000
    ensures u < 0x80 <==> Value(u) < 0x80
    ensures u < 0x800 <==> Value(u) < 0x800
    ensures u < 0x10000 <==> Value(u) < 0x10000
  {
    HighOctets(u);
    NibbleBound(u);
    NibbleBound(u >> 4);
    OctetBound(u >> 8);
    hide Nibble;
  }

  lemma PlaneBound(u: bv32)
    requires u < 0x11_0000
    ensures Octet(u >> 16) < 0x11
  {
  }

  lemma ValueBound(u: bv32)
    requires u < 0x11_0000
    ensures Value(u) < 0x11_0000
  {
    PlaneBound(u);
    OctetBound(u);
    OctetBound(u >> 8);
    hide Octet;
  }

  function Low6(u: bv32): nat { Nibble(u) + 16 * Bit(u, 16) + 32 * Bit(u, 32) }

  lemma SixBits(u: bv32)
    requires u < 0x20_0000
    ensures Value(u) == 64 * Value(u >> 6) + Low6(u) && Low6(u) < 64
  {
  }

  lemma TailBits(u: bv32)
    ensures Octet((u | 0x80) & 0xBF) == 0x80 + Low6(u)
  {
  }

  lemma SixMore(u: bv32)
    requires u < 0x20_0000
    ensures u >> 6 < 0x20_0000
  {
  }

  /** A continuation byte and what is left: the masks and the shift of the fall-through switch. */
  lemma TailMask(u: bv32)
    requires u < 0x20_0000
    ensures Stored((u | 0x80) & 0xBF) == Byte(0x80 + Value(u) % 64) && Value(u >> 6) == Value(u) / 64 && u >> 6 < 0x20_0000
  {
    hide Low6, Value, Octet;
    SixBits(u);
    TailBits(u);
    SixMore(u);
  }

  lemma LeadCompares(u: bv32)
    requires u < 0x20_0000
    ensures u < 0x20 <==> Value(u) < 0x20
    ensures u < 0x10 <==> Value(u) < 0x10
    ensures u < 0x08 <==> Value(u) < 0x08
  {
    LengthCompares(u);
    if u < 0x80 {
      SmallCompares(u);
    }
  }

  lemma SmallCompares(u: bv32)
    requires u < 0x80
    ensures u < 0x20 <==> Value(u) < 0x20
    ensures u < 0x10 <==> Value(u) < 0x10
    ensures u < 0x08 <==> Value(u) < 0x08
  {
  }

  lemma LeadBits1(u: bv32)
    requires u < 0x80
    ensures Octet(u | 0) == Value(u)
  {
  }

  lemma LeadBits2(u: bv32)
    requires u < 0x20
    ensures Octet(u | 0xC0) == 0xC0 + Value(u)
  {
  }

  lemma LeadBits3(u: bv32)
    requires u < 0x10
    ensures Octet(u | 0xE0) == 0xE0 + Value(u)
  {
  }

  lemma LeadBits4(u: bv32)
    requires u < 0x08
    ensures Octet(u | 0xF0) == 0xF0 + Value(u)
  {
  }

  /** firstByteMark */
  function FirstByteMark(len: nat): bv32 {
    if len == 2 then 0xC0 else if len == 3 then 0xE0 else if len == 4 then 0xF0 else 0
  }

  function LeadMark(len: nat): nat { if len <= 1 then 0 else if len == 2 then 0xC0 else if len == 3 then 0xE0 else 0xF0 }

  /** What the first byte has room for. */
  function LeadRoom(len: nat): (n: nat)
    ensures LeadMark(len) + n <= 0x100
  {
    if len <= 1 then 0x80 else if len == 2 then 0x20 else if len == 3 then 0x10 else 0x08
  }

  /** The first byte, marked according to the length. */
  lemma LeadMask(u: bv32, len: nat)
    requires u < 0x20_0000 && 1 <= len <= 4 && Value(u) < LeadRoom(len)
    ensures Stored(u | FirstByteMark(len)) == Byte(LeadMark(len) + Value(u))
  {
    hide Value, Octet;
    LengthCompares(u);
    LeadCompares(u);
    if len == 1 {
      LeadBits1(u);
    } else if len == 2 {
      LeadBits2(u);
    } else if len == 3 {
      LeadBits3(u);
    } else {
      LeadBits4(u);
    }
  }
}
