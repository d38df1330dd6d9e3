/**
 The glob matcher of rct/Rct.h.  Patterns and texts are the contents of C strings, so the end of
 the sequence plays the terminating NUL.
 */
module Glob {
  import opened Ascii

  /** One pattern character against one text character, outside of `*`. */
  predicate Fits(p: char, c: char, caseSensitive: bool) {
    p == '?' || p == c || (!caseSensitive && ToLower(p) == ToLower(c))
  }

  /** The meaning of a pattern: `*` stands for any run, `?` for any one character. */
  ghost predicate Matches(wild: string, text: string, cs: bool)
    decreases |wild|
  {
    if wild == [] then text == []
    else if wild[0] == '*' then exists k :: 0 <= k <= |text| && Matches(wild[1..], text[k..], cs)
    else text != [] && Fits(wild[0], text[0], cs) && Matches(wild[1..], text[1..], cs)
  }

  /** `?` fits anything; any other character itself and, unless case counts, its letter in either case. */
  ghost predicate Accepts(p: char, c: char, cs: bool) {
    p == '?' || p == c || (!cs && exists k :: 0 <= k < 26 && IsLetter(p, k) && IsLetter(c, k))
  }

  /** Without stars, pattern and text are compared place by place. */
  lemma {:induction false} StarFreeMatches(wild: string, text: string, cs: bool)
    requires '*' !in wild
    ensures Matches(wild, text, cs) <==>
              |wild| == |text| && forall i | 0 <= i < |wild| :: Accepts(wild[i], text[i], cs)
    decreases |wild|
  {
    hide Accepts;
    if wild != [] && text != [] {
      StarFreeMatches(wild[1..], text[1..], cs);
      assert Fits(wild[0], text[0], cs) <==> Accepts(wild[0], text[0], cs) by { FitsMeans(wild[0], text[0], cs); }
      assert forall i | 0 < i < |wild| && i < |text| :: wild[i] == wild[1..][i - 1] && text[i] == text[1..][i - 1];
    }
  }

  lemma FitsMeans(p: char, c: char, cs: bool)
    ensures Fits(p, c, cs) <==> Accepts(p, c, cs)
  {
    SameLetter(p, c);
  }

  /** A star alone matches everything. */
  lemma StarMatchesAll(text: string, cs: bool)
    ensures Matches("*", text, cs)
  {
    assert text[|text|..] == [] && "*"[1..] == [];
  }

  /** A pattern followed by another matches a text that splits into a match of each. */
  lemma {:induction false} PatternsFollow(p: string, q: string, text: string, cs: bool)
    ensures Matches(p + q, text, cs) <==>
              exists k :: 0 <= k <= |text| && Matches(p, text[..k], cs) && Matches(q, text[k..], cs)
    decreases |p|
  {
    if p == [] {
      assert p + q == q && text[..0] == [] && text[0..] == text;
    } else {
      assert (p + q)[1..] == p[1..] + q;
      if p[0] == '*' {
        StarFollows(p, q, text, cs);
      } else if text != [] {
        PatternsFollow(p[1..], q, text[1..], cs);
        forall k | 0 < k <= |text|
          ensures text[..k][1..] == text[1..][..k - 1] && text[k..] == text[1..][k - 1..]
        {
        }
        if k :| 0 <= k <= |text[1..]| && Matches(p[1..], text[1..][..k], cs) && Matches(q, text[1..][k..], cs) {
          assert text[..k + 1][1..] == text[1..][..k] && text[k + 1..] == text[1..][k..];
        }
      }
    }
  }

  lemma {:induction false} StarFollows(p: string, q: string, text: string, cs: bool)
    requires p != [] && p[0] == '*'
    ensures Matches(p + q, text, cs) <==>
              exists k :: 0 <= k <= |text| && Matches(p, text[..k], cs) && Matches(q, text[k..], cs)
    decreases |p|, 0
  {
    assert (p + q)[1..] == p[1..] + q;
    if Matches(p + q, text, cs) {
      var i :| 0 <= i <= |text| && Matches(p[1..] + q, text[i..], cs);
      PatternsFollow(p[1..], q, text[i..], cs);
      var k :| 0 <= k <= |text[i..]| && Matches(p[1..], text[i..][..k], cs) && Matches(q, text[i..][k..], cs);
      assert text[..i + k][i..] == text[i..][..k] && text[i + k..] == text[i..][k..];
    }
    if k :| 0 <= k <= |text| && Matches(p, text[..k], cs) && Matches(q, text[k..], cs) {
      var i :| 0 <= i <= |text[..k]| && Matches(p[1..], text[..k][i..], cs);
      PatternsFollow(p[1..], q, text[i..], cs);
      assert text[i..][..k - i] == text[..k][i..] && text[i..][k - i..] == text[k..];
    }
  }

  /** Some match of `wild` starts in `text` at or after `from`. */
  ghost predicate MatchesFrom(wild: string, text: string, from: nat, cs: bool) {
    exists k :: from <= k <= |text| && Matches(wild, text[k..], cs)
  }

  /** A star-free segment consumes exactly its own length. */
  lemma {:induction false} SegmentSkip(wild: string, text: string, n: nat, cs: bool)
    requires n <= |wild| && '*' !in wild[..n]
    requires Matches(wild, text, cs)
    ensures n <= |text| && Matches(wild[n..], text[n..], cs)
    decreases n
  {
    if n > 0 {
      assert wild[0] == wild[..n][0];
      assert wild[1..][..n-1] == wild[..n][1..];
      SegmentSkip(wild[1..], text[1..], n - 1, cs);
      assert wild[1..][n-1..] == wild[n..] && text[1..][n-1..] == text[n..];
    } else {
      assert wild[0..] == wild && text[0..] == text;
    }
  }

  /** A pattern beginning with `*` that matches late in the text also matches earlier. */
  lemma StarAbsorbs(wild: string, text: string, i: nat, j: nat, cs: bool)
    requires wild != [] && wild[0] == '*' && i <= j <= |text|
    requires Matches(wild, text[j..], cs)
    ensures Matches(wild, text[i..], cs)
  {
    var k :| 0 <= k <= |text[j..]| && Matches(wild[1..], text[j..][k..], cs);
    assert text[j..][k..] == text[i..][j - i + k..];
  }

  /** After the last star only the most recent retry point matters: an older start that still works
      would reach the star that ends the segment no earlier than the current attempt does. */
  lemma OlderRetriesAreRedundant(wild: string, text: string, mp: nat, w: nat, s: nat, cp: nat, cs: bool)
    requires mp <= w < |wild| && wild[w] == '*' && '*' !in wild[mp..w]
    requires 1 <= cp && s == cp - 1 + (w - mp) && s <= |text|
    requires MatchesFrom(wild[mp..], text, cp, cs)
    ensures Matches(wild[w..], text[s..], cs)
  {
    var k :| cp <= k <= |text| && Matches(wild[mp..], text[k..], cs);
    assert wild[mp..][..w - mp] == wild[mp..w];
    SegmentSkip(wild[mp..], text[k..], w - mp, cs);
    assert wild[mp..][w - mp..] == wild[w..] && text[k..][w - mp..] == text[k + (w - mp)..];
    StarAbsorbs(wild[w..], text, s, k + (w - mp), cs);
  }

  /** Once the text is used up, no later start leaves room for the segment already matched. */
  lemma NoRoomLeft(wild: string, text: string, mp: nat, w: nat, cp: nat, cs: bool)
    requires mp <= w <= |wild| && '*' !in wild[mp..w]
    requires 1 <= cp && |text| == cp - 1 + (w - mp)
    ensures !MatchesFrom(wild[mp..], text, cp, cs)
  {
    if MatchesFrom(wild[mp..], text, cp, cs) {
      var k :| cp <= k <= |text| && Matches(wild[mp..], text[k..], cs);
      assert wild[mp..][..w - mp] == wild[mp..w];
      SegmentSkip(wild[mp..], text[k..], w - mp, cs);
    }
  }

  /** Splitting the earliest start off the retries. */
  lemma FirstStart(wild: string, text: string, from: nat, cs: bool)
    requires from <= |text|
    ensures MatchesFrom(wild, text, from, cs)
        <==> Matches(wild, text[from..], cs) || MatchesFrom(wild, text, from + 1, cs)
  {
  }

  /** A leading star matches exactly when the rest matches from some start. */
  lemma StarIsAnyStart(wild: string, text: string, s: nat, cs: bool)
    requires wild != [] && wild[0] == '*' && s <= |text|
    ensures Matches(wild, text[s..], cs) <==> MatchesFrom(wild[1..], text, s, cs)
  {
    forall k | 0 <= k <= |text[s..]|
      ensures text[s..][k..] == text[s + k..]
    {
    }
    if MatchesFrom(wild[1..], text, s, cs) {
      var k :| s <= k <= |text| && Matches(wild[1..], text[k..], cs);
      assert text[s..][k - s..] == text[k..];
    }
  }

  /** A star closing the pattern matches whatever is left. */
  lemma TrailingStar(wild: string, text: string, s: nat, cs: bool)
    requires wild == "*" && s <= |text|
    ensures Matches(wild, text[s..], cs)
  {
    assert text[s..][|text| - s..] == [];
    assert Matches(wild[1..], text[s..][|text| - s..], cs);
  }

  /** One character against a pattern that does not begin with `*`. */
  lemma OneCharacter(wild: string, text: string, w: nat, s: nat, cs: bool)
    requires w <= |wild| && s < |text| && (w < |wild| ==> wild[w] != '*')
    ensures w == |wild| ==> !Matches(wild[w..], text[s..], cs)
    ensures w < |wild| ==> (Matches(wild[w..], text[s..], cs)
                       <==> Fits(wild[w], text[s], cs) && Matches(wild[w + 1..], text[s + 1..], cs))
  {
    if w < |wild| {
      assert wild[w..][1..] == wild[w + 1..] && text[s..][1..] == text[s + 1..];
    }
  }

  /** A pattern against the empty text: stars drop off, then nothing may be left. */
  lemma AtEndOfText(wild: string, w: nat, cs: bool)
    requires w <= |wild|
    ensures w == |wild| ==> Matches(wild[w..], [], cs)
    ensures w < |wild| && wild[w] != '*' ==> !Matches(wild[w..], [], cs)
    ensures w < |wild| && wild[w] == '*' ==> (Matches(wild[w..], [], cs) <==> Matches(wild[w + 1..], [], cs))
  {
    if w < |wild| && wild[w] == '*' {
      var none: string := [];
      assert wild[w..][1..] == wild[w + 1..] && none[0..] == [];
    }
  }

  lemma SegmentGrows(wild: string, mp: nat, w: nat)
    requires mp <= w < |wild| && '*' !in wild[mp..w] && wild[w] != '*'
    ensures '*' !in wild[mp..w + 1]
  {
    assert wild[mp..w + 1] == wild[mp..w] + [wild[w]];
  }

  /** `wildCmp`: literal head, greedy middle that only ever returns to the last star (`mp`, `cp`),
      trailing stars.  `mp == -1` plays the null pointer. */
  method WildCmp(wild: string, text: string, caseSensitive: bool) returns (r: bool)
    ensures r <==> Matches(wild, text, caseSensitive)
  {
    hide Matches, MatchesFrom;
    var w, s := 0, 0;
    assert wild[0..] == wild && text[0..] == text;
    while s < |text| && !(w < |wild| && wild[w] == '*')
      invariant 0 <= w <= |wild| && 0 <= s <= |text|
      invariant Matches(wild, text, caseSensitive) <==> Matches(wild[w..], text[s..], caseSensitive)
      decreases |text| - s
    {
      OneCharacter(wild, text, w, s, caseSensitive);
      if w == |wild| || !Fits(wild[w], text[s], caseSensitive) {
        return false;
      }
      w, s := w + 1, s + 1;
    }
    var mp, cp := -1, 0;
    while s < |text|
      invariant 0 <= w <= |wild| && 0 <= s <= |text|
      invariant mp == -1 ==> cp == 0 && (s == |text| || (w < |wild| && wild[w] == '*'))
      invariant mp == -1 ==> (Matches(wild, text, caseSensitive) <==> Matches(wild[w..], text[s..], caseSensitive))
      invariant mp != -1 ==> 0 <= mp <= w && '*' !in wild[mp..w]
      invariant mp != -1 ==> 1 <= cp <= |text| + 1 && s == cp - 1 + (w - mp)
      invariant mp != -1 ==> (Matches(wild, text, caseSensitive) <==>
                              Matches(wild[w..], text[s..], caseSensitive) || MatchesFrom(wild[mp..], text, cp, caseSensitive))
      decreases |text| + 1 - cp, |wild| - mp, |text| - s
    {
      if w < |wild| && wild[w] == '*' {
        if mp != -1 && MatchesFrom(wild[mp..], text, cp, caseSensitive) {
          OlderRetriesAreRedundant(wild, text, mp, w, s, cp, caseSensitive);
        }
        StarIsAnyStart(wild[w..], text, s, caseSensitive);
        assert wild[w..][1..] == wild[w+1..];
        w := w + 1;
        if w == |wild| {
          TrailingStar(wild[w-1..], text, s, caseSensitive);
          return true;
        }
        mp, cp := w, s + 1;
        FirstStart(wild[mp..], text, s, caseSensitive);
      } else if w < |wild| && Fits(wild[w], text[s], caseSensitive) {
        OneCharacter(wild, text, w, s, caseSensitive);
        if mp != -1 {
          SegmentGrows(wild, mp, w);
        }
        w, s := w + 1, s + 1;
      } else {
        OneCharacter(wild, text, w, s, caseSensitive);
        FirstStart(wild[mp..], text, cp, caseSensitive);
        w, s, cp := mp, cp, cp + 1;
      }
    }
    if mp != -1 {
      NoRoomLeft(wild, text, mp, w, cp, caseSensitive);
    }
    assert text[s..] == [];
    while w < |wild| && wild[w] == '*'
      invariant 0 <= w <= |wild|
      invariant Matches(wild, text, caseSensitive) <==> Matches(wild[w..], [], caseSensitive)
    {
      AtEndOfText(wild, w, caseSensitive);
      w := w + 1;
    }
    AtEndOfText(wild, w, caseSensitive);
    return w == |wild|;
  }
}
