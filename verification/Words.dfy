/**
 Splitting an identifier into words (rct/StringTokenizer.h, break_parts_of_word).
 */
module Words {
  import opened Ascii

  /** An alphanumeric character of the identifier; `apart` says that an underscore stands between it
      and the alphanumeric character before it. */
  datatype Token = Token(c: char, apart: bool)

  /** Does an underscore follow the last alphanumeric character of `s`? */
  predicate EndsApart(s: string) {
    if s == [] then false
    else var c := s[|s| - 1]; if c == '_' then true else if IsAlnum(c) then false else EndsApart(s[..|s| - 1])
  }

  /** That is, one of the characters behind the last alphanumeric one is an underscore. */
  lemma {:induction false} ApartMeans(s: string)
    ensures EndsApart(s) <==> exists j :: 0 <= j < |s| && s[j] == '_' && forall m | j < m < |s| :: !IsAlnum(s[m])
  {
    if s != [] {
      var before, c := s[..|s| - 1], s[|s| - 1];
      ApartMeans(before);
      if c != '_' && !IsAlnum(c) {
        if j :| 0 <= j < |before| && before[j] == '_' && forall m | j < m < |before| :: !IsAlnum(before[m]) {
          assert s[j] == '_' && forall m | j < m < |s| :: !IsAlnum(s[m]);
        }
        if j :| 0 <= j < |s| && s[j] == '_' && forall m | j < m < |s| :: !IsAlnum(s[m]) {
          assert before[j] == '_' && forall m | j < m < |before| :: before[m] == s[m] && !IsAlnum(before[m]);
        }
      } else if c == '_' {
        assert s[|s| - 1] == '_';
      }
    }
  }

  function Tokens(s: string): seq<Token> {
    if s == [] then []
    else
      var before, c := s[..|s| - 1], s[|s| - 1];
      if IsAlnum(c) then Tokens(before) + [Token(c, EndsApart(before))] else Tokens(before)
  }

  /** The word boundaries, stated by looking at the neighbours of position `i` only. */
  predicate Cut(t: seq<Token>, i: nat)
    requires 0 < i < |t|
  {
    var x, y := t[i - 1].c, t[i].c;
    || t[i].apart
    || (IsLower(y) && IsDigit(x))
    || (IsUpper(y) && !IsUpper(x))
    || (IsDigit(y) && !IsDigit(x))
    || (IsUpper(x) && IsUpper(y) && i + 1 < |t| && IsLower(t[i + 1].c) && !t[i + 1].apart)
  }

  function Chars(t: seq<Token>): (s: string)
    ensures |s| == |t|
  {
    seq(|t|, i requires 0 <= i < |t| => t[i].c)
  }

  function Join(parts: seq<string>): string {
    if parts == [] then [] else Join(parts[..|parts| - 1]) + parts[|parts| - 1]
  }

  /** The offsets at which the parts begin in their concatenation. */
  function Starts(parts: seq<string>): set<nat> {
    if parts == [] then {} else Starts(parts[..|parts| - 1]) + {|Join(parts[..|parts| - 1])|}
  }

  ghost predicate NoneEmpty(parts: seq<string>) {
    forall k | 0 <= k < |parts| :: parts[k] != []
  }

  /** `parts` cuts the characters of `t` at exactly the word boundaries. */
  ghost predicate IsSegmentation(parts: seq<string>, t: seq<Token>) {
    && Join(parts) == Chars(t)
    && NoneEmpty(parts)
    && forall i | 0 < i < |t| :: i in Starts(parts) <==> Cut(t, i)
  }

  lemma MoreChars(t: seq<Token>, x: Token)
    ensures Chars(t + [x]) == Chars(t) + [x.c]
  {
  }

  lemma Snoc(parts: seq<string>, p: string)
    ensures Join(parts + [p]) == Join(parts) + p
    ensures Starts(parts + [p]) == Starts(parts) + {|Join(parts)|}
  {
    assert (parts + [p])[..|parts|] == parts;
  }

  lemma {:induction false} StartsBelow(parts: seq<string>)
    requires NoneEmpty(parts)
    ensures forall i | i in Starts(parts) :: i < |Join(parts)|
  {
    if parts != [] {
      StartsBelow(parts[..|parts| - 1]);
    }
  }

  /** A new character that begins a word of its own. */
  lemma NewWord(parts: seq<string>, t: seq<Token>, x: Token)
    requires IsSegmentation(parts, t)
    requires t != [] ==> Cut(t + [x], |t|)
    requires IsLower(x.c) && !x.apart && t != [] ==> !IsUpper(t[|t| - 1].c)
    ensures IsSegmentation(parts + [[x.c]], t + [x])
  {
    Snoc(parts, [x.c]);
    MoreChars(t, x);
    StartsBelow(parts);
    forall i | 0 < i < |t|
      ensures Cut(t + [x], i) == Cut(t, i)
    {
    }
  }

  /** A new character that continues the last word. */
  lemma SameWord(done: seq<string>, word: string, t: seq<Token>, x: Token)
    requires word != [] && IsSegmentation(done + [word], t)
    requires !Cut(t + [x], |t|)
    requires IsLower(x.c) && IsUpper(t[|t| - 1].c) ==> |word| == 1
    ensures IsSegmentation(done + [word + [x.c]], t + [x])
  {
    Snoc(done, word);
    Snoc(done, word + [x.c]);
    MoreChars(t, x);
    StartsBelow(done + [word]);
    assert Join(done) + (word + [x.c]) == Join(done) + word + [x.c];
    forall k | 0 <= k < |done|
      ensures done[k] != []
    {
      assert (done + [word])[k] == done[k];
    }
    forall i | 0 < i < |t|
      ensures Cut(t + [x], i) == Cut(t, i)
    {
      if i == |t| - 1 && IsLower(x.c) && IsUpper(t[i].c) {
        assert i in Starts(done + [word]);
      }
    }
  }

  /** Moving the last character of the last word to a new word, in front of `c`. */
  lemma PulledStarts(done: seq<string>, word: string, c: char) returns (r: seq<string>)
    requires |word| > 1 && NoneEmpty(done + [word])
    ensures r == done + [word[..|word| - 1]] + [[word[|word| - 1]] + [c]] && NoneEmpty(r)
    ensures Join(r) == Join(done + [word]) + [c]
    ensures Starts(r) == Starts(done + [word]) + {|Join(done + [word])| - 1}
  {
    var head, tail := word[..|word| - 1], [word[|word| - 1]] + [c];
    r := done + [head] + [tail];
    Snoc(done, word);
    Snoc(done, head);
    Snoc(done + [head], tail);
    assert head + tail == word + [c];
    assert Join(done) + head + tail == Join(done) + (head + tail);
    forall k | 0 <= k < |done|
      ensures done[k] != []
    {
      assert (done + [word])[k] == done[k];
    }
  }

  /** Inside the last word there is no boundary. */
  lemma InsideLastWord(done: seq<string>, word: string, t: seq<Token>)
    requires |word| > 1 && IsSegmentation(done + [word], t)
    ensures |t| > 1 && !Cut(t, |t| - 1)
    ensures t[|t| - 1].c == word[|word| - 1] && t[|t| - 2].c == word[|word| - 2]
  {
    Snoc(done, word);
    forall k | 0 <= k < |done|
      ensures done[k] != []
    {
      assert (done + [word])[k] == done[k];
    }
    StartsBelow(done);
    assert Chars(t)[|t| - 1] == word[|word| - 1] && Chars(t)[|t| - 2] == word[|word| - 2];
  }

  /** A lower-case letter after two or more upper-case ones pulls the last of them over (XML|Do). */
  lemma PulledWord(done: seq<string>, word: string, t: seq<Token>, x: Token)
    requires |word| > 1 && IsSegmentation(done + [word], t)
    requires IsLower(x.c) && !x.apart && IsUpper(word[|word| - 1])
    ensures IsSegmentation(done + [word[..|word| - 1]] + [[word[|word| - 1]] + [x.c]], t + [x])
  {
    var r := PulledStarts(done, word, x.c);
    InsideLastWord(done, word, t);
    MoreChars(t, x);
    StartsBelow(done + [word]);
    hide Join, Starts;
    forall i | 0 < i < |t| + 1
      ensures i in Starts(r) <==> Cut(t + [x], i)
    {
      if i < |t| - 1 {
        assert Cut(t + [x], i) == Cut(t, i);
      }
    }
  }

  function LowerAll(s: string): (r: string)
    ensures |r| == |s|
  {
    seq(|s|, i requires 0 <= i < |s| => ToLower(s[i]))
  }

  function LowerEach(parts: seq<string>): (r: seq<string>)
    ensures |r| == |parts|
  {
    seq(|parts|, i requires 0 <= i < |parts| => LowerAll(parts[i]))
  }

  /** The parts together with the word still being collected. */
  function WithBuffer(result: seq<string>, buffer: string): seq<string> {
    if buffer == [] then result else result + [buffer]
  }

  lemma LastCharacter(result: seq<string>, buffer: string, t: seq<Token>)
    requires buffer != [] && IsSegmentation(result + [buffer], t)
    ensures t != [] && t[|t| - 1].c == buffer[|buffer| - 1]
  {
    Snoc(result, buffer);
    assert Chars(t)[|t| - 1] == buffer[|buffer| - 1];
  }

  lemma OneMore(before: string, c: char)
    ensures Tokens(before + [c]) == if IsAlnum(c) then Tokens(before) + [Token(c, EndsApart(before))] else Tokens(before)
    ensures EndsApart(before + [c]) == (c == '_' || (!IsAlnum(c) && EndsApart(before)))
  {
    assert (before + [c])[..|before|] == before;
  }

  /** One character of the loop of `break_parts_of_word`. */
  method TakeCharacter(result: seq<string>, buffer: string, c: char, ghost before: string)
    returns (result': seq<string>, buffer': string)
    requires IsSegmentation(WithBuffer(result, buffer), Tokens(before))
    requires buffer == [] <==> (Tokens(before) == [] || EndsApart(before))
    ensures IsSegmentation(WithBuffer(result', buffer'), Tokens(before + [c]))
    ensures buffer' == [] <==> (Tokens(before + [c]) == [] || EndsApart(before + [c]))
  {
    result', buffer' := result, buffer;
    ghost var t, x := Tokens(before), Token(c, EndsApart(before));
    hide IsSegmentation, Tokens, EndsApart;
    OneMore(before, c);
    assert [] + [c] == [c];
    if buffer != [] {
      LastCharacter(result, buffer, t);
    }
    if c == '_' {
      if buffer != [] {
        result', buffer' := result + [buffer], [];
      }
    } else if IsLower(c) {
      if |buffer| > 1 && IsUpper(buffer[|buffer| - 1]) {
        PulledWord(result, buffer, t, x);
        result' := result + [buffer[..|buffer| - 1]];
        buffer' := [buffer[|buffer| - 1]] + [c];
      } else if buffer != [] && IsDigit(buffer[|buffer| - 1]) {
        NewWord(result + [buffer], t, x);
        result', buffer' := result + [buffer], [c];
      } else {
        if buffer == [] { NewWord(result, t, x); } else { SameWord(result, buffer, t, x); }
        buffer' := buffer + [c];
      }
    } else if IsUpper(c) || IsDigit(c) {
      if buffer != [] && (if IsUpper(c) then !IsUpper(buffer[|buffer| - 1]) else !IsDigit(buffer[|buffer| - 1])) {
        NewWord(result + [buffer], t, x);
        result', buffer' := result + [buffer], [c];
      } else {
        if buffer == [] { NewWord(result, t, x); } else { SameWord(result, buffer, t, x); }
        buffer' := buffer + [c];
      }
    }
  }

  /** The closing loop of `break_parts_of_word`. */
  method LowerCaseParts(raw: seq<string>) returns (parts: seq<string>)
    ensures parts == LowerEach(raw)
  {
    hide LowerAll;
    parts := raw;
    for i := 0 to |parts|
      invariant |parts| == |raw|
      invariant forall j | 0 <= j < |raw| :: parts[j] == if j < i then LowerAll(raw[j]) else raw[j]
    {
      parts := parts[i := LowerAll(parts[i])];
    }
  }

  method BreakPartsOfWord(str: string) returns (parts: seq<string>)
    ensures exists raw :: IsSegmentation(raw, Tokens(str)) && parts == LowerEach(raw)
  {
    var result: seq<string>, buffer: string := [], [];
    assert IsSegmentation(WithBuffer(result, buffer), Tokens(str[..0]));
    hide IsSegmentation, Tokens, EndsApart;
    for k := 0 to |str|
      invariant IsSegmentation(WithBuffer(result, buffer), Tokens(str[..k]))
      invariant buffer == [] <==> (Tokens(str[..k]) == [] || EndsApart(str[..k]))
    {
      assert str[..k + 1] == str[..k] + [str[k]];
      result, buffer := TakeCharacter(result, buffer, str[k], str[..k]);
    }
    assert str[..|str|] == str;
    if buffer != [] {
      result := result + [buffer];
    }
    parts := LowerCaseParts(result);
  }

  /** The boundaries determine the words: there is only one segmentation. */
  lemma SegmentationIsUnique(a: seq<string>, b: seq<string>, t: seq<Token>)
    requires IsSegmentation(a, t) && IsSegmentation(b, t)
    ensures a == b
  {
    StartsBelow(a);
    StartsBelow(b);
    SameStarts(a, b);
  }

  lemma {:induction false} SameStarts(a: seq<string>, b: seq<string>)
    requires NoneEmpty(a) && NoneEmpty(b) && Join(a) == Join(b)
    requires forall i | 0 < i :: i in Starts(a) <==> i in Starts(b)
    ensures a == b
    decreases |a|
  {
    if a == [] || b == [] {
    } else {
      var a', b' := a[..|a| - 1], b[..|b| - 1];
      StartsBelow(a');
      StartsBelow(b');
      var last, last' := |Join(a')|, |Join(b')|;
      assert Starts(a) == Starts(a') + {last} && Starts(b) == Starts(b') + {last'};
      assert last == last';
      assert Join(a') == Join(a)[..last] == Join(b)[..last] == Join(b');
      assert a[|a| - 1] == Join(a)[last..] == Join(b)[last..] == b[|b| - 1];
      SameStarts(a', b');
      assert a == a' + [a[|a| - 1]] && b == b' + [b[|b| - 1]];
    }
  }

  /** The characters of `s` that words are made of. */
  function Alnums(s: string): string {
    if s == [] then []
    else Alnums(s[..|s| - 1]) + (if IsAlnum(s[|s| - 1]) then [s[|s| - 1]] else [])
  }

  lemma {:induction false} TokensSpellAlnums(s: string)
    ensures Chars(Tokens(s)) == Alnums(s)
  {
    if s != [] {
      TokensSpellAlnums(s[..|s| - 1]);
    }
  }

  lemma {:induction false} JoinLowered(parts: seq<string>)
    ensures Join(LowerEach(parts)) == LowerAll(Join(parts))
  {
    if parts != [] {
      var front := parts[..|parts| - 1];
      JoinLowered(front);
      assert LowerEach(parts)[..|parts| - 1] == LowerEach(front);
    }
  }

  /** Nothing but the separators is lost: the words spell the lower-cased alphanumerics in order. */
  lemma PartsConserveText(str: string, raw: seq<string>)
    requires IsSegmentation(raw, Tokens(str))
    ensures Join(LowerEach(raw)) == LowerAll(Alnums(str))
  {
    TokensSpellAlnums(str);
    JoinLowered(raw);
  }

  /** The shapes a word can have before it is lower-cased. */
  ghost predicate IsWordShape(p: string) {
    || (forall j | 0 <= j < |p| :: IsDigit(p[j]))
    || (forall j | 0 <= j < |p| :: IsUpper(p[j]))
    || ((IsUpper(p[0]) || IsLower(p[0])) && forall j | 1 <= j < |p| :: IsLower(p[j]))
  }

  /** A word keeps its shape when the next character is not cut off from it. */
  lemma GrowShape(p: string, y: char)
    requires p != [] && IsWordShape(p) && IsAlnum(y)
    requires IsLower(y) ==> !IsDigit(p[|p| - 1])
    requires IsLower(y) && |p| > 1 ==> !(IsUpper(p[|p| - 1]) && IsUpper(p[|p| - 2]))
    requires IsUpper(y) ==> IsUpper(p[|p| - 1])
    requires IsDigit(y) ==> IsDigit(p[|p| - 1])
    ensures IsWordShape(p + [y])
  {
    var q := p + [y];
    assert q[|p|] == y && forall j | 0 <= j < |p| :: q[j] == p[j];
    if IsDigit(y) {
      assert forall j | 0 <= j < |q| :: IsDigit(q[j]);
    } else if IsUpper(y) {
      assert forall j | 0 <= j < |q| :: IsUpper(q[j]);
    } else {
      assert forall j | 1 <= j < |q| :: IsLower(q[j]);
    }
  }

  lemma {:induction false} UncutRun(t: seq<Token>, from: nat, len: nat)
    requires 0 < len && from + len <= |t|
    requires forall i | 0 <= i < |t| :: IsAlnum(t[i].c)
    requires forall i | from < i < from + len :: !Cut(t, i)
    ensures IsWordShape(Chars(t)[from..from + len])
  {
    if len > 1 {
      UncutRun(t, from, len - 1);
      var i, s := from + len - 1, Chars(t);
      var p := s[from..i];
      assert s[from..i + 1] == p + [s[i]];
      assert s[i] == t[i].c && p[len - 2] == s[i - 1] == t[i - 1].c;
      assert len > 2 ==> p[len - 3] == s[i - 2] == t[i - 2].c;
      assert !Cut(t, i) && (len > 2 ==> !Cut(t, i - 1));
      hide IsWordShape;
      GrowShape(p, t[i].c);
    }
  }

  lemma {:induction false} TokensAreAlnum(s: string)
    ensures forall i | 0 <= i < |Tokens(s)| :: IsAlnum(Tokens(s)[i].c)
  {
    if s != [] {
      TokensAreAlnum(s[..|s| - 1]);
    }
  }

  /** The last word occupies a run of the text without inner starts. */
  lemma {:induction false} WordIsRun(parts: seq<string>, k: nat) returns (from: nat)
    requires k < |parts| && NoneEmpty(parts)
    ensures from + |parts[k]| <= |Join(parts)| && parts[k] == Join(parts)[from..from + |parts[k]|]
    ensures forall i | from < i < from + |parts[k]| :: i !in Starts(parts)
    decreases |parts|
  {
    var front := parts[..|parts| - 1];
    if k == |parts| - 1 {
      from := |Join(front)|;
      StartsBelow(front);
    } else {
      from := WordIsRun(front, k);
      assert front[k] == parts[k];
      assert Join(parts)[from..from + |parts[k]|] == Join(front)[from..from + |parts[k]|];
    }
  }

  /** Every word is non-empty and made of digits, of upper-case letters, or of lower-case letters
      with at most one upper-case letter in front. */
  lemma EveryWordHasShape(str: string, raw: seq<string>, k: nat)
    requires IsSegmentation(raw, Tokens(str)) && k < |raw|
    ensures raw[k] != [] && IsWordShape(raw[k])
  {
    var from := WordIsRun(raw, k);
    TokensAreAlnum(str);
    UncutRun(Tokens(str), from, |raw[k]|);
  }

  // ---- Case ----

  /** One string is the other in some case. */
  ghost predicate SameUpToCase(a: string, b: string) {
    |a| == |b| && forall i | 0 <= i < |a| ::
      a[i] == b[i] || exists k :: 0 <= k < 26 && IsLetter(a[i], k) && IsLetter(b[i], k)
  }

  /** Strings agree in lower case exactly when they differ in the case of letters only. */
  lemma LowerAgrees(a: string, b: string)
    ensures LowerAll(a) == LowerAll(b) <==> SameUpToCase(a, b)
  {
    if |a| == |b| {
      forall i | 0 <= i < |a|
        ensures LowerAll(a)[i] == LowerAll(b)[i] <==>
                  a[i] == b[i] || exists k :: 0 <= k < 26 && IsLetter(a[i], k) && IsLetter(b[i], k)
      {
        SameLetter(a[i], b[i]);
      }
      hide IsLetter, ToLower;
    }
  }

  /** Lower-casing leaves no capital. */
  lemma NoCapitals(s: string)
    ensures SameUpToCase(LowerAll(s), s) && forall c | c in LowerAll(s) :: c !in CAPITAL
  {
    forall i | 0 <= i < |s|
      ensures LowerAll(s)[i] !in CAPITAL && ToLower(ToLower(s[i])) == ToLower(s[i])
    {
      Classes(LowerAll(s)[i]);
    }
    assert LowerAll(LowerAll(s)) == LowerAll(s);
    LowerAgrees(LowerAll(s), s);
  }

  /** Every part is its word up to case, without capitals. */
  lemma PartsAreLower(raw: seq<string>, k: nat)
    requires k < |raw|
    ensures SameUpToCase(LowerEach(raw)[k], raw[k]) && forall c | c in LowerEach(raw)[k] :: c !in CAPITAL
  {
    NoCapitals(raw[k]);
  }

  /** A query begins a name in some case exactly when it does so in lower case. */
  lemma LowerPrefix(query: string, name: string)
    requires |query| <= |name|
    ensures LowerAll(query) <= LowerAll(name) <==> SameUpToCase(query, name[..|query|])
  {
    assert LowerAll(name)[..|query|] == LowerAll(name[..|query|]);
    LowerAgrees(query, name[..|query|]);
  }

  // ---- No cut is superfluous ----

  /** The place where word k begins. */
  function PlaceOf(parts: seq<string>, k: nat): nat
    requires k <= |parts|
  {
    |Join(parts[..k])|
  }

  lemma {:induction false} WordStarts(parts: seq<string>, k: nat)
    requires k < |parts|
    ensures PlaceOf(parts, k) in Starts(parts)
    ensures PlaceOf(parts, k + 1) == PlaceOf(parts, k) + |parts[k]| <= |Join(parts)|
    ensures Join(parts)[PlaceOf(parts, k)..PlaceOf(parts, k + 1)] == parts[k]
    decreases |parts|
  {
    var front, last := parts[..|parts| - 1], parts[|parts| - 1];
    assert parts[..k + 1][..k] == parts[..k];
    Snoc(parts[..k], parts[k]);
    assert parts[..k + 1] == parts[..k] + [parts[k]];
    if k == |parts| - 1 {
      assert parts[..k + 1] == parts;
    } else {
      WordStarts(front, k);
      assert front[..k] == parts[..k] && front[..k + 1] == parts[..k + 1] && front[k] == parts[k];
      assert Join(parts)[PlaceOf(parts, k)..PlaceOf(parts, k + 1)] == Join(front)[PlaceOf(front, k)..PlaceOf(front, k + 1)];
    }
  }

  /** Two characters between which a word is cut, and the one behind, fit into no shape together. */
  lemma CutBreaksShape(a: string, b: string)
    requires a != [] && b != []
    requires var x, y := a[|a| - 1], b[0];
             || (IsLower(y) && IsDigit(x)) || (IsUpper(y) && !IsUpper(x)) || (IsDigit(y) && !IsDigit(x))
             || (IsUpper(x) && IsUpper(y) && |b| > 1 && IsLower(b[1]))
    ensures !IsWordShape(a + b)
  {
    var w, n := a + b, |a|;
    assert w[n - 1] == a[n - 1] && w[n] == b[0] && (|b| > 1 ==> w[n + 1] == b[1]);
  }

  /** The words are as long as they can be: between two of them an underscore has stood, or together
      they would have no shape; and a small letter begins a word only there, or behind a digit. */
  lemma WordsAreLongest(str: string, raw: seq<string>, k: nat)
    requires IsSegmentation(raw, Tokens(str)) && k + 1 < |raw|
    ensures var t, p := Tokens(str), PlaceOf(raw, k + 1);
            && 0 < p < |t|
            && (t[p].apart || !IsWordShape(raw[k] + raw[k + 1]))
            && (IsLower(raw[k + 1][0]) ==> t[p].apart || IsDigit(raw[k][|raw[k]| - 1]))
  {
    var t, p := Tokens(str), PlaceOf(raw, k + 1);
    TokensAreAlnum(str);
    WordStarts(raw, k);
    WordStarts(raw, k + 1);
    var a, b := raw[k], raw[k + 1];
    Neighbours(Chars(t), PlaceOf(raw, k), p, PlaceOf(raw, k + 2), a, b);
    assert Cut(t, p);
    hide IsWordShape, Tokens;
    if !t[p].apart {
      if p + 1 < |t| && IsUpper(t[p].c) && IsLower(t[p + 1].c) && !t[p + 1].apart {
        SecondCharacter(t, raw, k + 1);
      }
      hide IsSegmentation, PlaceOf;
      CutBreaksShape(a, b);
    }
  }

  /** Where nothing is cut behind its first character, a word goes on. */
  lemma SecondCharacter(t: seq<Token>, raw: seq<string>, k: nat)
    requires IsSegmentation(raw, t) && k < |raw|
    requires PlaceOf(raw, k) + 1 < |t| && !Cut(t, PlaceOf(raw, k) + 1)
    ensures |raw[k]| > 1 && raw[k][1] == t[PlaceOf(raw, k) + 1].c
  {
    var p, q := PlaceOf(raw, k), PlaceOf(raw, k + 1);
    WordStarts(raw, k);
    if k + 1 < |raw| {
      WordStarts(raw, k + 1);
    } else {
      assert raw[..k + 1] == raw;
    }
    assert q != p + 1;
    assert raw[k][1] == Chars(t)[p..q][1];
  }

  lemma Neighbours(s: string, o: nat, p: nat, q: nat, a: string, b: string)
    requires o < p < q <= |s| && s[o..p] == a && s[p..q] == b
    ensures a[|a| - 1] == s[p - 1] && b[0] == s[p]
  {
  }

  /** Where an underscore has stood a word begins. */
  lemma UnderscoreCuts(str: string, raw: seq<string>, i: nat)
    requires IsSegmentation(raw, Tokens(str)) && 0 < i < |Tokens(str)| && Tokens(str)[i].apart
    ensures i in Starts(raw)
  {
  }
}
