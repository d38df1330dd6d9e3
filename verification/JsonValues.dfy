/**
 What toCJSON and fromCJSON make of scalars and of repeated names (rct/Value.cpp), told without them.
 */
module JsonValues {
  import opened Common
  import opened Ascii
  import opened JsonString
  import opened JsonStringCode
  import opened JsonText
  import opened JsonRoundTrip
  import opened JsonGrammar
  import opened JsonReading
  import opened ValueJson
  import opened WireFormat
  import J = JsonFormat
  import W = Wire

  // ---- Numbers ----

  function ZeroDigits(n: nat): string { if n == 0 then [] else ZeroDigits(n - 1) + "0" }

  /** The power of ten is what one with as many zeros behind it spells. */
  lemma {:induction false} PowerSpelled(n: nat)
    ensures Digits("1" + ZeroDigits(n)) && DigitsMean("1" + ZeroDigits(n)) == Pow10(n)
  {
    if n == 0 {
      assert "1" + [] == "1" && "1"[..0] == [];
      assert DigitsMean([]) == 0;
    } else {
      PowerSpelled(n - 1);
      var t, before := "1" + ZeroDigits(n), "1" + ZeroDigits(n - 1);
      assert t == before + "0" && t[..|t| - 1] == before && t[|t| - 1] == '0';
    }
  }

  lemma {:induction false} DigitTable(k: nat)
    requires k < 10
    ensures Digits(["0123456789"[k]]) && DigitsMean(["0123456789"[k]]) == k
  {
    var s := ["0123456789"[k]];
    assert s[..0] == [] && "0123456789"[k] as int == 48 + k;
  }

  /** A number becomes the Integer n exactly when n has 32 bits and is the mantissa times its power of ten. */
  lemma IntegerExactlyWhen(m: int, e: int, n: int)
    ensures FromNumber(m, e) == W.Integer(n) <==>
              IsInt32(n) && if e >= 0 then n == m * Pow10(e) else n * Pow10(-e) == m
  {
    if e < 0 {
      var p := Pow10(-e);
      DivisionExact(m, p, n);
    }
  }

  lemma DivisionExact(m: int, p: nat, n: int)
    requires p > 0
    ensures m % p == 0 && m / p == n <==> n * p == m
  {
    assert m == m / p * p + m % p;
    if n * p == m {
      assert (n - m / p) * p == m % p;
      Multiples(n - m / p, p);
    }
  }

  lemma Multiples(d: int, p: nat)
    requires p > 0
    ensures (d >= 1 ==> d * p >= p) && (d <= -1 ==> d * p < 0)
  {
  }

  /** The mantissa a numeral spells, with its sign, and its power of ten. */
  ghost function Mantissa(s: Syntax): int
    requires s.Numeral? && Valid(s)
  {
    if s.minus then 0 - DigitsMean(s.whole + s.fraction) else DigitsMean(s.whole + s.fraction)
  }

  ghost function Power(s: Syntax): int
    requires s.Numeral? && Valid(s)
  {
    ExponentMeans(s.exponent) - |s.fraction|
  }

  lemma NumeralMeaning(s: Syntax)
    requires s.Numeral? && Valid(s)
    ensures FromTree(Meaning(s)) == FromNumber(Mantissa(s), Power(s))
  {
    hide Valid, Readable, DigitsMean, ExponentMeans, FromNumber;
  }

  /** A numeral of JSON is read as the Integer n exactly when n has 32 bits and is what it spells. */
  lemma NumeralIsInteger(s: Syntax, n: int)
    requires s.Numeral? && Valid(s)
    ensures FromJson(Spell(s)) == Some(W.Integer(n)) <==>
              IsInt32(n) && if Power(s) >= 0 then n == Mantissa(s) * Pow10(Power(s)) else n * Pow10(-Power(s)) == Mantissa(s)
  {
    NumeralMeaning(s);
    Denoted(s);
    IntegerExactlyWhen(Mantissa(s), Power(s), n);
    hide Valid, Readable, Meaning, FromTree, FromNumber, Pow10, FromJson, Spell, Mantissa, Power;
  }

  /** 1e2, 1E2, 1e+2 and 1E+2 are the Integer 100, and with a minus sign in front of the exponent none. */
  lemma HundredIsRead(mark: char, sign: string)
    requires mark == 'e' || mark == 'E'
    ensures sign in ["", "+"] ==> FromJson("1" + ([mark] + sign + "2")) == Some(W.Integer(100))
    ensures sign == "-" ==> forall n :: FromJson("1" + ([mark] + sign + "2")) != Some(W.Integer(n))
  {
    var s := Numeral(false, "1", [], Exponent(mark, sign, "2"));
    DigitTable(1);
    DigitTable(2);
    assert "1" + [] == "1";
    assert Pow10(2) == 100;
    if sign in ["", "+", "-"] {
      assert [] + ("1" + ([] + ([mark] + sign + "2"))) == "1" + ([mark] + sign + "2");
      forall n { NumeralIsInteger(s, n); }
    }
  }

  lemma Denoted(s: Syntax)
    requires Valid(s)
    ensures FromJson(Spell(s)) == Some(FromTree(Meaning(s)))
  {
    hide Spell, Meaning, FromTree, ParseValue, Skip;
    assert Denotes(Spell(s), Meaning(s));
    DenotedIsParsed([], Spell(s), [], Meaning(s));
    assert [] + (Spell(s) + []) == Spell(s);
  }

  // ---- Texts ----

  /** What toJSON writes for values without children. */
  lemma ScalarTexts(pretty: bool)
    ensures ToJson(W.Invalid, pretty) == "null" && ToJson(W.Undefined, pretty) == "null"
    ensures ToJson(W.Boolean(true), pretty) == "true" && ToJson(W.Boolean(false), pretty) == "false"
    ensures forall s :: ToJson(W.String(s), pretty) == Quoted(CStr(s))
  {
  }

  /** Integers are written in decimal: the sign and the digits of their low 32 bits, no zero in front. */
  lemma IntegerText(n: int, pretty: bool)
    ensures var t, m := ToJson(W.Integer(n), pretty), W.Wrap32(n);
            var ds := if m < 0 then t[1..] else t;
            && (m < 0 ==> t[0] == '-') && Digits(ds) && DigitsMean(ds) == (if m < 0 then -m else m)
            && ds != [] && (ds[0] == '0' ==> ds == "0")
  {
    var m := W.Wrap32(n);
    J.DecimalMeans(if m < 0 then -m else m);
    hide DigitsMean, Decimal, Digits;
  }

  /** C code sees a string up to its first NUL. */
  lemma {:induction false} CStrMeans(s: string)
    ensures CStr(s) <= s && '\0' !in CStr(s)
    ensures |CStr(s)| < |s| ==> s[|CStr(s)|] == '\0'
  {
    if s != [] && s[0] != '\0' {
      CStrMeans(s[1..]);
      assert s == [s[0]] + s[1..];
    }
  }

  // ---- Maps ----

  /** The value of the last member of this name. */
  function LastNamed(members: Members, name: string): Option<Json> {
    if members.NoMember? then None
    else
      var later := LastNamed(members.next, name);
      if later.Some? then later else if members.name == name then Some(members.value) else None
  }

  lemma {:induction false} MembersMean(members: Members, acc: W.Entries)
    requires W.Sorted(acc)
    ensures W.Sorted(FromMembers(members, acc))
    ensures forall k :: k in MapOf(FromMembers(members, acc)) <==> LastNamed(members, k).Some? || k in MapOf(acc)
    ensures forall k | k in MapOf(FromMembers(members, acc)) ::
              MapOf(FromMembers(members, acc))[k] ==
                if LastNamed(members, k).Some? then FromTree(LastNamed(members, k).value) else MapOf(acc)[k]
    decreases members
  {
    hide FromTree, W.Insert, W.Sorted;
    if members.Member? {
      InsertMeans(acc, members.name, FromTree(members.value));
      MembersMean(members.next, W.Insert(acc, members.name, FromTree(members.value)));
    }
  }

  /** An object becomes a map in key order, in which the last member of a name counts. */
  lemma ObjectMeans(members: Members)
    ensures var v := FromTree(Object(members));
            && v.Map? && W.Sorted(v.entries)
            && (forall k :: k in MapOf(v.entries) <==> LastNamed(members, k).Some?)
            && (forall k | k in MapOf(v.entries) :: MapOf(v.entries)[k] == FromTree(LastNamed(members, k).value))
  {
    MembersMean(members, W.NoEntry);
  }
}
