/**
 The character classes of <cctype> in the C locale.
 */
module Ascii {
  predicate IsLower(c: char) { 'a' <= c <= 'z' }

  predicate IsUpper(c: char) { 'A' <= c <= 'Z' }

  predicate IsDigit(c: char) { '0' <= c <= '9' }

  predicate IsAlnum(c: char) { IsLower(c) || IsUpper(c) || IsDigit(c) }

  function ToLower(c: char): char {
    if IsUpper(c) then (c as int + 32) as char else c
  }

  const SMALL := "abcdefghijklmnopqrstuvwxyz"
  const CAPITAL := "ABCDEFGHIJKLMNOPQRSTUVWXYZ"

  lemma Letters(k: nat)
    requires k < 26
    ensures SMALL[k] as int == 97 + k && CAPITAL[k] as int == 65 + k
  {
  }

  lemma IsSmall(c: char)
    ensures IsLower(c) <==> exists k :: 0 <= k < 26 && c == SMALL[k]
  {
    forall k | 0 <= k < 26 ensures IsLower(SMALL[k]) { Letters(k); }
    if IsLower(c) {
      Letters(c as int - 97);
    }
  }

  lemma IsCapital(c: char)
    ensures IsUpper(c) <==> exists k :: 0 <= k < 26 && c == CAPITAL[k]
  {
    forall k | 0 <= k < 26 ensures IsUpper(CAPITAL[k]) { Letters(k); }
    if IsUpper(c) {
      Letters(c as int - 65);
    }
  }

  lemma IsFigure(c: char)
    ensures IsDigit(c) <==> c in "0123456789"
  {
    if IsDigit(c) {
      assert c == "0123456789"[c as int - 48];
    }
  }

  /** The classes, letter by letter. */
  lemma Classes(c: char)
    ensures IsLower(c) <==> c in SMALL
    ensures IsUpper(c) <==> c in CAPITAL
    ensures IsDigit(c) <==> c in "0123456789"
    ensures IsAlnum(c) <==> c in SMALL || c in CAPITAL || c in "0123456789"
  {
    IsSmall(c);
    IsCapital(c);
    IsFigure(c);
    hide IsLower, IsUpper, IsDigit;
  }

  /** A capital becomes the small letter of the same place in the alphabet, and nothing else changes. */
  lemma LowerMeans(c: char)
    ensures forall k | 0 <= k < 26 && c == CAPITAL[k] :: ToLower(c) == SMALL[k]
    ensures c !in CAPITAL ==> ToLower(c) == c
  {
    IsCapital(c);
    forall k | 0 <= k < 26 && c == CAPITAL[k] ensures ToLower(c) == SMALL[k] { Letters(k); }
  }

  /** The character is the k-th letter, in either case. */
  predicate IsLetter(c: char, k: nat)
    requires k < 26
  {
    c == SMALL[k] || c == CAPITAL[k]
  }

  lemma LetterLowers(c: char, k: nat)
    requires k < 26
    ensures IsLetter(c, k) <==> ToLower(c) == SMALL[k]
  {
    Letters(k);
  }

  /** Two characters have the same lower case exactly when they are equal or one letter in both cases. */
  lemma SameLetter(p: char, c: char)
    ensures ToLower(p) == ToLower(c) <==> p == c || exists k :: 0 <= k < 26 && IsLetter(p, k) && IsLetter(c, k)
  {
    forall k | 0 <= k < 26
      ensures IsLetter(p, k) <==> ToLower(p) == SMALL[k]
      ensures IsLetter(c, k) <==> ToLower(c) == SMALL[k]
    {
      LetterLowers(p, k);
      LetterLowers(c, k);
    }
    if ToLower(p) == ToLower(c) && p != c {
      var k := ToLower(p) as int - 97;
      Letters(k);
      assert IsLetter(p, k);
    }
    hide ToLower, IsLetter;
  }
}
