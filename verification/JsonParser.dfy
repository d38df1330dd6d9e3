/**
 The recursive-descent parser of cJSON/cJSON.c as it moves its cursor, proved against the language
 of JsonText.  `s` is the text without its terminating NUL.
 */
module JsonParser {
  import opened Ascii
  import opened JsonString
  import opened JsonStringCode
  import opened JsonText

  /** `skip` */
  method SkipAt(s: string, start: nat) returns (i: nat)
    requires NulFree(s) && start <= |s|
    ensures start <= i <= |s| && s[i..] == Skip(s[start..])
  {
    i := start;
    while At(s, i) != '\0' && At(s, i) as int <= 32
      invariant start <= i <= |s| && Skip(s[i..]) == Skip(s[start..])
      decreases |s| - i
    {
      assert s[i..][1..] == s[i + 1..];
      i := i + 1;
    }
    assert i < |s| ==> s[i..][0] == s[i];
  }

  /** The digit loops of parse_number. */
  method DigitsAt(s: string, start: nat, acc: int) returns (n: int, i: nat)
    requires start <= |s|
    ensures start <= i <= |s| && TakeDigits(acc, s[start..]) == Read(n, s[i..])
  {
    n, i := acc, start;
    while IsDigit(At(s, i))
      invariant start <= i <= |s| && TakeDigits(n, s[i..]) == TakeDigits(acc, s[start..])
      decreases |s| - i
    {
      assert s[i..][0] == s[i] && s[i..][1..] == s[i + 1..];
      n := n * 10 + (s[i] as int - '0' as int);
      i := i + 1;
    }
    assert i < |s| ==> s[i..][0] == s[i];
  }

  method WholeAt(s: string, start: nat) returns (n: int, i: nat)
    requires start <= |s|
    ensures start <= i <= |s| && TakeWhole(s[start..]) == Read(n, s[i..])
  {
    i, n := start, 0;
    if At(s, i) == '0' {
      assert s[i..][1..] == s[i + 1..];
      i := i + 1;
    }
    ghost var t := s[i..];
    assert i < |s| ==> t[0] == s[i];
    if '1' <= At(s, i) <= '9' {
      assert t[1..] == s[i + 1..];
      n, i := DigitsAt(s, i + 1, s[i] as int - '0' as int);
    }
  }

  /** The fraction; `scale` counts its digits downwards. */
  method FractionAt(s: string, start: nat, whole: int) returns (n: int, scale: int, i: nat)
    requires start <= |s|
    ensures start <= i <= |s| && TakeFraction(whole, s[start..]) == Read(n, s[i..])
    ensures scale == if i == start then 0 else start + 1 - i
    ensures i == start ==> n == whole
  {
    n, scale, i := whole, 0, start;
    ghost var t := s[start..];
    assert start < |s| ==> t[0] == s[start] && t[1..] == s[start + 1..];
    assert start + 1 < |s| ==> t[1..][0] == s[start + 1];
    if At(s, i) == '.' && IsDigit(At(s, i + 1)) {
      i := i + 1;
      while IsDigit(At(s, i))
        invariant start < i <= |s| && TakeDigits(n, s[i..]) == TakeDigits(whole, s[start + 1..])
        invariant scale == start + 1 - i
        decreases |s| - i
      {
        assert s[i..][0] == s[i] && s[i..][1..] == s[i + 1..];
        n, scale := n * 10 + (s[i] as int - '0' as int), scale - 1;
        i := i + 1;
      }
      assert i < |s| ==> s[i..][0] == s[i];
    }
  }

  method ExponentAt(s: string, start: nat) returns (e: int, i: nat)
    requires start <= |s|
    ensures start <= i <= |s| && TakeExponent(s[start..]) == Read(e, s[i..])
  {
    e, i := 0, start;
    ghost var t := s[start..];
    assert start < |s| ==> t[0] == s[start] && t[1..] == s[start + 1..];
    assert start + 1 < |s| ==> t[1..][0] == s[start + 1] && t[2..] == s[start + 2..];
    if At(s, i) == 'e' || At(s, i) == 'E' {
      var sign := 1;
      i := i + 1;
      if At(s, i) == '+' {
        i := i + 1;
      } else if At(s, i) == '-' {
        sign, i := -1, i + 1;
      }
      e, i := DigitsAt(s, i, 0);
      e := e * sign;
    }
  }

  /** `parse_number` */
  method NumberAt(s: string, start: nat) returns (r: Result<Json>)
    requires start <= |s|
    ensures Agrees(r, ParseNumber(s[start..]), s)
  {
    hide TakeWhole, TakeFraction, TakeExponent;
    var sign, i := 1, start;
    ghost var t := s[start..];
    assert start < |s| ==> t[0] == s[start] && t[1..] == s[start + 1..];
    if At(s, i) == '-' {
      sign, i := -1, i + 1;
    }
    var n, scale, e;
    n, i := WholeAt(s, i);
    ghost var whole := Read(n, s[i..]);
    ghost var behind := i;
    n, scale, i := FractionAt(s, i, n);
    assert |s[i..]| == |whole.rest| + behind - i;
    e, i := ExponentAt(s, i);
    r := Ok(Number(sign * n, scale + e), i);
  }

  // ---- Arrays ----

  /** The chain of the elements parsed so far in front of the outcome of the remaining ones. */
  function ChainItems(before: seq<Json>, p: Parsed<Items>): Parsed<Items>
    decreases |before|
  {
    if before == [] then p
    else
      var n := |before| - 1;
      ChainItems(before[..n], if p.Done? then Done(Item(before[n], p.value), p.rest) else p)
  }

  function LinkItems(before: seq<Json>, last: Items): Items
    decreases |before|
  {
    if before == [] then last else LinkItems(before[..|before| - 1], Item(before[|before| - 1], last))
  }

  lemma {:induction false} ChainItemsDone(before: seq<Json>, last: Items, rest: string)
    ensures ChainItems(before, Done(last, rest)) == Done(LinkItems(before, last), rest)
    decreases |before|
  {
    if before != [] {
      ChainItemsDone(before[..|before| - 1], Item(before[|before| - 1], last), rest);
    }
  }

  lemma {:induction false} ChainItemsStops(before: seq<Json>, p: Parsed<Items>)
    requires !p.Done?
    ensures ChainItems(before, p) == p
    decreases |before|
  {
    if before != [] {
      ChainItemsStops(before[..|before| - 1], p);
    }
  }

  /** What stands behind an element, blanks skipped. */
  function BehindElement(t: string): Parsed<Items> {
    if StartsWith(t, ',') then ParseItems(t[1..])
    else if StartsWith(t, ']') then Done(NoItem, t[1..])
    else Fail
  }

  /** `skip` applied to what a parse function returns. */
  function SkipBehind<T>(p: Parsed<T>): Parsed<T> {
    if p.Done? then Done(p.value, Skip(p.rest)) else p
  }

  lemma OneElement(before: seq<Json>, t: string)
    ensures var p := SkipBehind(ParseValue(Skip(t)));
            && (p.Fail? ==> ChainItems(before, ParseItems(t)) == Fail)
            && (p.Overrun? ==> ChainItems(before, ParseItems(t)) == Overrun)
            && (p.Done? ==> ChainItems(before, ParseItems(t)) == ChainItems(before + [p.value], BehindElement(p.rest)))
  {
    hide ParseValue, Skip;
    var p := ParseValue(Skip(t));
    if p.Done? {
      assert (before + [p.value])[..|before|] == before;
    } else {
      ChainItemsStops(before, ParseItems(t));
    }
  }

  lemma ArrayMeans(t: string)
    requires StartsWith(t, '[')
    ensures var t1 := Skip(t[1..]);
            ParseValue(t) == if StartsWith(t1, ']') then Done(Array(NoItem), t1[1..]) else AsArray(ParseItems(t1))
  {
    hide Skip, ParseItems;
  }

  function AsArray(p: Parsed<Items>): Parsed<Json> {
    if p.Done? then Done(Array(p.value), p.rest) else if p.Fail? then Fail else Overrun
  }

  lemma ChainNoItems(p: Parsed<Items>)
    ensures ChainItems([], p) == p
  {
  }

  /** One child: `skip(parse_value(child, skip(value)))`. */
  method ElementAt(s: string, start: nat) returns (r: Result<Json>)
    requires NulFree(s) && start <= |s|
    ensures Agrees(r, SkipBehind(ParseValue(Skip(s[start..]))), s)
    ensures r.Ok? ==> start < r.end
    decreases |s| - start, 2
  {
    hide ParseValue, Skip;
    var i := SkipAt(s, start);
    r := ParseValueAt(s, i);
    if r.Ok? {
      var j := SkipAt(s, r.end);
      r := Ok(r.value, j);
    }
  }

  /** `parse_array` */
  method ParseArrayAt(s: string, start: nat) returns (r: Result<Json>)
    requires NulFree(s) && start < |s| && s[start] == '['
    ensures Agrees(r, ParseValue(s[start..]), s)
    decreases |s| - start, 0
  {
    hide ParseValue, ParseItems, Skip, ChainItems;
    ArrayMeans(s[start..]);
    assert s[start..][1..] == s[start + 1..];
    var i := SkipAt(s, start + 1);
    assert i < |s| ==> s[i..][0] == s[i] && s[i..][1..] == s[i + 1..];
    if At(s, i) == ']' {
      return Ok(Array(NoItem), i + 1);
    }
    ghost var items := ParseItems(s[i..]);
    ChainNoItems(items);
    OneElement([], s[i..]);
    var child := ElementAt(s, i);
    if !child.Ok? {
      return child;
    }
    var children := [child.value];
    assert [] + [child.value] == children;
    i := child.end;
    while At(s, i) == ','
      invariant start < i <= |s|
      invariant ChainItems(children, BehindElement(s[i..])) == items
      decreases |s| - i
    {
      assert s[i..][0] == s[i] && s[i..][1..] == s[i + 1..];
      OneElement(children, s[i + 1..]);
      child := ElementAt(s, i + 1);
      if !child.Ok? {
        return child;
      }
      children := children + [child.value];
      i := child.end;
    }
    assert i < |s| ==> s[i..][0] == s[i] && s[i..][1..] == s[i + 1..];
    if At(s, i) == ']' {
      ChainItemsDone(children, NoItem, s[i + 1..]);
      return Ok(Array(LinkItems(children, NoItem)), i + 1);
    }
    ChainItemsStops(children, Fail);
    return Failed;
  }

  // ---- Objects ----

  function ChainMembers(before: seq<(string, Json)>, p: Parsed<Members>): Parsed<Members>
    decreases |before|
  {
    if before == [] then p
    else
      var n := |before| - 1;
      ChainMembers(before[..n], if p.Done? then Done(Member(before[n].0, before[n].1, p.value), p.rest) else p)
  }

  function LinkMembers(before: seq<(string, Json)>, last: Members): Members
    decreases |before|
  {
    if before == [] then last
    else var m := before[|before| - 1]; LinkMembers(before[..|before| - 1], Member(m.0, m.1, last))
  }

  lemma {:induction false} ChainMembersDone(before: seq<(string, Json)>, last: Members, rest: string)
    ensures ChainMembers(before, Done(last, rest)) == Done(LinkMembers(before, last), rest)
    decreases |before|
  {
    if before != [] {
      var m := before[|before| - 1];
      ChainMembersDone(before[..|before| - 1], Member(m.0, m.1, last), rest);
    }
  }

  lemma {:induction false} ChainMembersStops(before: seq<(string, Json)>, p: Parsed<Members>)
    requires !p.Done?
    ensures ChainMembers(before, p) == p
    decreases |before|
  {
    if before != [] {
      ChainMembersStops(before[..|before| - 1], p);
    }
  }

  function BehindMemberValue(t: string): Parsed<Members> {
    if StartsWith(t, ',') then ParseMembers(t[1..])
    else if StartsWith(t, '}') then Done(NoMember, t[1..])
    else Fail
  }

  /** A name, a colon and a value, blanks skipped. */
  function ParsePair(t: string): Parsed<(string, Json)> {
    match SkipBehind(ParseText(Skip(t)))
    case Fail => Fail
    case Overrun => Overrun
    case Done(name, rest) =>
      if !StartsWith(rest, ':') then Fail
      else
        var v := SkipBehind(ParseValue(Skip(rest[1..])));
        if v.Done? then Done((name, v.value), v.rest) else if v.Fail? then Fail else Overrun
  }

  lemma OnePair(before: seq<(string, Json)>, t: string)
    ensures var p := ParsePair(t);
            && (p.Fail? ==> ChainMembers(before, ParseMembers(t)) == Fail)
            && (p.Overrun? ==> ChainMembers(before, ParseMembers(t)) == Overrun)
            && (p.Done? ==> ChainMembers(before, ParseMembers(t)) == ChainMembers(before + [p.value], BehindMemberValue(p.rest)))
  {
    hide ParseValue, ParseText, Skip;
    var p := ParsePair(t);
    if p.Done? {
      assert (before + [p.value])[..|before|] == before;
    } else {
      ChainMembersStops(before, ParseMembers(t));
    }
  }

  lemma ObjectMeans(t: string)
    requires StartsWith(t, '{')
    ensures var t1 := Skip(t[1..]);
            ParseValue(t) == if StartsWith(t1, '}') then Done(Object(NoMember), t1[1..]) else AsObject(ParseMembers(t1))
  {
    hide Skip, ParseMembers;
  }

  function AsObject(p: Parsed<Members>): Parsed<Json> {
    if p.Done? then Done(Object(p.value), p.rest) else if p.Fail? then Fail else Overrun
  }

  lemma ChainNoMembers(p: Parsed<Members>)
    ensures ChainMembers([], p) == p
  {
  }

  /** The name, the colon and the value of one member. */
  method PairAt(s: string, start: nat) returns (r: Result<(string, Json)>)
    requires NulFree(s) && start <= |s|
    ensures Agrees(r, ParsePair(s[start..]), s)
    ensures r.Ok? ==> start < r.end
    decreases |s| - start, 3
  {
    hide ParseValue, ParseText, Skip;
    var i := SkipAt(s, start);
    var name := ParseString(s, i);
    if !name.Ok? {
      return if name.Failed? then Failed else Overran;
    }
    TextShrinks(s[i..]);
    i := SkipAt(s, name.end);
    ghost var rest := s[i..];
    assert i < |s| ==> rest[0] == s[i] && rest[1..] == s[i + 1..];
    if At(s, i) != ':' {
      return Failed;
    }
    var value := ElementAt(s, i + 1);
    if !value.Ok? {
      return if value.Failed? then Failed else Overran;
    }
    return Ok((name.value, value.value), value.end);
  }

  /** `parse_object` */
  method ParseObjectAt(s: string, start: nat) returns (r: Result<Json>)
    requires NulFree(s) && start < |s| && s[start] == '{'
    ensures Agrees(r, ParseValue(s[start..]), s)
    decreases |s| - start, 0
  {
    hide ParseValue, ParseMembers, ParsePair, Skip, ChainMembers;
    ObjectMeans(s[start..]);
    assert s[start..][1..] == s[start + 1..];
    var i := SkipAt(s, start + 1);
    assert i < |s| ==> s[i..][0] == s[i] && s[i..][1..] == s[i + 1..];
    if At(s, i) == '}' {
      return Ok(Object(NoMember), i + 1);
    }
    ghost var members := ParseMembers(s[i..]);
    ChainNoMembers(members);
    OnePair([], s[i..]);
    var child := PairAt(s, i);
    if !child.Ok? {
      return if child.Failed? then Failed else Overran;
    }
    var children := [child.value];
    assert [] + [child.value] == children;
    i := child.end;
    while At(s, i) == ','
      invariant start < i <= |s|
      invariant ChainMembers(children, BehindMemberValue(s[i..])) == members
      decreases |s| - i
    {
      assert s[i..][0] == s[i] && s[i..][1..] == s[i + 1..];
      OnePair(children, s[i + 1..]);
      child := PairAt(s, i + 1);
      if !child.Ok? {
        return if child.Failed? then Failed else Overran;
      }
      children := children + [child.value];
      i := child.end;
    }
    assert i < |s| ==> s[i..][0] == s[i] && s[i..][1..] == s[i + 1..];
    if At(s, i) == '}' {
      ChainMembersDone(children, NoMember, s[i + 1..]);
      return Ok(Object(LinkMembers(children, NoMember)), i + 1);
    }
    ChainMembersStops(children, Fail);
    return Failed;
  }

  // ---- Values ----

  /** `strncmp(value, word, |word|) == 0` */
  predicate HasWord(s: string, i: nat, word: string) {
    i <= |s| && word <= s[i..]
  }

  lemma WordMeans(t: string)
    ensures "null" <= t ==> ParseValue(t) == Done(Null, t[4..])
    ensures "false" <= t ==> ParseValue(t) == Done(False, t[5..])
    ensures "true" <= t ==> ParseValue(t) == Done(True, t[4..])
  {
    hide Skip, ParseItems, ParseMembers, DecodeBody, ParseNumber;
    assert "false" <= t ==> t[0] == 'f';
    assert "true" <= t ==> t[0] == 't';
  }

  lemma TextMeans(t: string)
    requires StartsWith(t, '\"')
    ensures ParseValue(t) == var p := ParseText(t);
                             if p.Done? then Done(Text(p.value), p.rest) else if p.Fail? then Fail else Overrun
  {
    hide Skip, ParseItems, ParseMembers, DecodeBody, ParseNumber;
  }

  lemma NumberMeans(t: string)
    requires StartsWith(t, '-') || StartsWithDigit(t)
    ensures ParseValue(t) == ParseNumber(t)
  {
    hide Skip, ParseItems, ParseMembers, DecodeBody, ParseNumber;
  }

  lemma NothingMeans(t: string)
    requires !("null" <= t) && !("false" <= t) && !("true" <= t)
    requires !StartsWith(t, '\"') && !StartsWith(t, '-') && !StartsWithDigit(t) && !StartsWith(t, '[') && !StartsWith(t, '{')
    ensures ParseValue(t) == Fail
  {
  }

  /** `parse_value` */
  method ParseValueAt(s: string, start: nat) returns (r: Result<Json>)
    requires NulFree(s) && start <= |s|
    ensures Agrees(r, ParseValue(s[start..]), s)
    ensures r.Ok? ==> start < r.end
    decreases |s| - start, 1
  {
    hide ParseValue, ParseText, ParseNumber;
    ghost var t := s[start..];
    WordMeans(t);
    ValueShrinks(t);
    assert start < |s| ==> t[0] == s[start];
    if HasWord(s, start, "null") {
      return Ok(Null, start + 4);
    }
    if HasWord(s, start, "false") {
      return Ok(False, start + 5);
    }
    if HasWord(s, start, "true") {
      return Ok(True, start + 4);
    }
    if At(s, start) == '\"' {
      TextMeans(t);
      var text := ParseString(s, start);
      return match text case Failed => Failed case Overran => Overran case Ok(v, end) => Ok(Text(v), end);
    }
    if At(s, start) == '-' || IsDigit(At(s, start)) {
      NumberMeans(t);
      r := NumberAt(s, start);
    } else if At(s, start) == '[' {
      r := ParseArrayAt(s, start);
    } else if At(s, start) == '{' {
      r := ParseObjectAt(s, start);
    } else {
      NothingMeans(t);
      r := Failed;
    }
  }

  lemma ValueShrinks(t: string)
    ensures ParseValue(t).Done? ==> |ParseValue(t).rest| < |t|
  {
  }

  /** `cJSON_Parse`: the whole text from its first visible character; what follows the value is ignored. */
  method Parse(s: string) returns (r: Result<Json>)
    requires NulFree(s)
    ensures Agrees(r, ParseValue(Skip(s)), s)
  {
    var i := SkipAt(s, 0);
    assert s[0..] == s;
    r := ParseValueAt(s, i);
  }
}
