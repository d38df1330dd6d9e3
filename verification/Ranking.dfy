/**
 Finding, comparing and sorting the matches of one query (rct/StringTokenizer.h).
 */
module Ranking {
  import opened Common
  import opened Ascii
  import opened Words
  import opened Boundary

  /** MatchResultType, in the order of the enumeration. */
  datatype Kind = WordBoundary | PrefixInsensitive | PrefixSensitive | ExactInsensitive | ExactSensitive {
    function Value(): nat {
      match this
      case WordBoundary => 0
      case PrefixInsensitive => 1
      case PrefixSensitive => 2
      case ExactInsensitive => 3
      case ExactSensitive => 4
    }
  }

  datatype Candidate = Candidate(name: string, priority: int)

  /** A MatchResult; `indices` is empty for the prefix results, which carry none. */
  datatype Match = Match(kind: Kind, indices: seq<nat>, candidate: Candidate)

  /** The comparator's loop: the first difference within the common length, 0 if there is none. */
  function FirstDifference(a: seq<nat>, b: seq<nat>): int {
    if a == [] || b == [] then 0
    else if a[0] != b[0] then a[0] - b[0]
    else FirstDifference(a[1..], b[1..])
  }

  /** MatchResultComparator */
  predicate Less(a: Match, b: Match) {
    if a.kind != b.kind then a.kind.Value() > b.kind.Value()
    else if a.kind.WordBoundary? && FirstDifference(a.indices, b.indices) != 0 then
      FirstDifference(a.indices, b.indices) > 0
    else if a.candidate.priority != b.candidate.priority then a.candidate.priority < b.candidate.priority
    else StringLess(a.candidate.name, b.candidate.name)
  }

  predicate Equivalent(a: Match, b: Match) { !Less(a, b) && !Less(b, a) }

  /** What std::sort demands of its comparator, on the elements of `ms`. */
  ghost predicate IsStrictWeakOrderOn(ms: set<Match>) {
    && (forall a | a in ms :: !Less(a, a))
    && (forall a, b, c | a in ms && b in ms && c in ms && Less(a, b) && Less(b, c) :: Less(a, c))
    && (forall a, b, c | a in ms && b in ms && c in ms && Equivalent(a, b) && Equivalent(b, c) :: Equivalent(a, c))
  }

  /** The index lists of all boundary matches of one query have the same sum. */
  ghost predicate OneQuery(ms: set<Match>, n: nat) {
    forall m | m in ms && m.kind.WordBoundary? :: Sum(m.indices) == n
  }

  lemma {:induction false} DifferenceIsOdd(a: seq<nat>, b: seq<nat>)
    ensures FirstDifference(a, b) == -FirstDifference(b, a)
  {
    if a != [] && b != [] {
      DifferenceIsOdd(a[1..], b[1..]);
    }
  }

  lemma {:induction false} ZeroSums(a: seq<nat>, b: seq<nat>)
    requires Sum(a) == 0 && Sum(b) == 0
    ensures FirstDifference(a, b) == 0
  {
    if a != [] && b != [] {
      ZeroSums(a[1..], b[1..]);
    }
  }

  /** With equal sums, comparing over the common length is transitive. */
  lemma {:induction false} DifferenceOrder(a: seq<nat>, b: seq<nat>, c: seq<nat>)
    requires Sum(a) == Sum(b) == Sum(c)
    requires FirstDifference(a, b) >= 0 && FirstDifference(b, c) >= 0
    ensures FirstDifference(a, c) >= 0
    ensures FirstDifference(a, c) == 0 <==> FirstDifference(a, b) == 0 && FirstDifference(b, c) == 0
  {
    if Sum(a) == 0 {
      ZeroSums(a, b);
      ZeroSums(b, c);
      ZeroSums(a, c);
    } else if a[0] == b[0] == c[0] {
      DifferenceOrder(a[1..], b[1..], c[1..]);
    }
  }

  /** Lists without a difference in their common length are prefixes of each other. */
  lemma {:induction false} PrefixesAgree(a: seq<nat>, b: seq<nat>)
    ensures FirstDifference(a, b) == 0 <==> a <= b || b <= a
  {
    if a != [] && b != [] {
      PrefixesAgree(a[1..], b[1..]);
      assert a == [a[0]] + a[1..] && b == [b[0]] + b[1..];
    }
  }

  /** No list continues into two lists of which neither continues the other. */
  ghost predicate Forkless(lists: set<seq<nat>>) {
    forall a, b, c | a in lists && b in lists && c in lists && b <= a && b <= c :: a <= c || c <= a
  }

  /** Without forks, too, comparing over the common length is transitive. */
  lemma {:induction false} ForklessOrder(a: seq<nat>, b: seq<nat>, c: seq<nat>)
    requires Forkless({a, b, c}) && FirstDifference(a, b) >= 0 && FirstDifference(b, c) >= 0
    ensures FirstDifference(a, c) >= 0
    ensures FirstDifference(a, c) == 0 <==> FirstDifference(a, b) == 0 && FirstDifference(b, c) == 0
  {
    PrefixesAgree(a, b);
    PrefixesAgree(b, c);
    PrefixesAgree(a, c);
    if a != [] && b != [] && c != [] && a[0] == b[0] == c[0] {
      TailsAreForkless(a, b, c);
      ForklessOrder(a[1..], b[1..], c[1..]);
    }
  }

  lemma TailsAreForkless(a: seq<nat>, b: seq<nat>, c: seq<nat>)
    requires a != [] && b != [] && c != [] && a[0] == b[0] == c[0] && Forkless({a, b, c})
    ensures Forkless({a[1..], b[1..], c[1..]})
  {
    forall x, y, z | x in {a, b, c} && y in {a, b, c} && z in {a, b, c} && y[1..] <= x[1..] && y[1..] <= z[1..]
      ensures x[1..] <= z[1..] || z[1..] <= x[1..]
    {
      TailPrefix(y, x);
      TailPrefix(y, z);
      TailPrefix(x, z);
      TailPrefix(z, x);
    }
  }

  lemma TailPrefix(a: seq<nat>, b: seq<nat>)
    requires a != [] && b != [] && a[0] == b[0]
    ensures a <= b <==> a[1..] <= b[1..]
  {
    assert a == [a[0]] + a[1..] && b == [b[0]] + b[1..];
  }

  /** The index lists of the boundary matches. */
  function Lists(ms: set<Match>): set<seq<nat>> {
    set m | m in ms && m.kind.WordBoundary? :: m.indices
  }

  lemma LessIsTransitive(ms: set<Match>, a: Match, b: Match, c: Match)
    requires Forkless(Lists(ms)) && a in ms && b in ms && c in ms && Less(a, b) && Less(b, c)
    ensures Less(a, c)
  {
    StringOrder(a.candidate.name, b.candidate.name, c.candidate.name);
    if a.kind == b.kind == c.kind == WordBoundary {
      assert {a.indices, b.indices, c.indices} <= Lists(ms);
      ForklessOrder(a.indices, b.indices, c.indices);
    }
  }

  lemma EquivalentMeans(a: Match, b: Match)
    ensures Equivalent(a, b) <==>
              a.kind == b.kind && a.candidate == b.candidate
              && (a.kind.WordBoundary? ==> FirstDifference(a.indices, b.indices) == 0)
  {
    DifferenceIsOdd(a.indices, b.indices);
    StringOrder(a.candidate.name, b.candidate.name, a.candidate.name);
    StringOrder(b.candidate.name, a.candidate.name, b.candidate.name);
  }

  lemma EquivalentIsTransitive(ms: set<Match>, a: Match, b: Match, c: Match)
    requires Forkless(Lists(ms)) && a in ms && b in ms && c in ms && Equivalent(a, b) && Equivalent(b, c)
    ensures Equivalent(a, c)
  {
    EquivalentMeans(a, b);
    EquivalentMeans(b, c);
    EquivalentMeans(a, c);
    if a.kind.WordBoundary? {
      assert {a.indices, b.indices, c.indices} <= Lists(ms);
      ForklessOrder(a.indices, b.indices, c.indices);
    }
  }

  lemma ForklessIsStrictWeakOrder(ms: set<Match>)
    requires Forkless(Lists(ms))
    ensures IsStrictWeakOrderOn(ms)
  {
    hide Less, Equivalent, Forkless;
    forall a | a in ms
      ensures !Less(a, a)
    {
      IsNotLess(a);
    }
    forall a, b, c | a in ms && b in ms && c in ms && Less(a, b) && Less(b, c)
      ensures Less(a, c)
    {
      LessIsTransitive(ms, a, b, c);
    }
    forall a, b, c | a in ms && b in ms && c in ms && Equivalent(a, b) && Equivalent(b, c)
      ensures Equivalent(a, c)
    {
      EquivalentIsTransitive(ms, a, b, c);
    }
  }

  lemma IsNotLess(a: Match)
    ensures !Less(a, a)
  {
    DifferenceIsOdd(a.indices, a.indices);
    StringOrder(a.candidate.name, a.candidate.name, a.candidate.name);
  }

  /** A fork spoils the order of any candidate's results. */
  lemma ForkSpoils(a: seq<nat>, b: seq<nat>, c: seq<nat>, candidate: Candidate)
    requires b <= a && b <= c && !(a <= c) && !(c <= a)
    ensures !IsStrictWeakOrderOn({Match(WordBoundary, a, candidate), Match(WordBoundary, b, candidate),
                                  Match(WordBoundary, c, candidate)})
  {
    var x, y, z := Match(WordBoundary, a, candidate), Match(WordBoundary, b, candidate), Match(WordBoundary, c, candidate);
    PrefixesAgree(a, b);
    PrefixesAgree(b, c);
    PrefixesAgree(a, c);
    EquivalentMeans(x, y);
    EquivalentMeans(y, z);
    EquivalentMeans(x, z);
  }

  /** The comparator is a legal std::sort ordering, whatever the candidates, exactly on index lists
      without a fork. */
  lemma StrictWeakOrderExactlyWhen(lists: set<seq<nat>>)
    ensures (forall ms | Lists(ms) <= lists :: IsStrictWeakOrderOn(ms)) <==> Forkless(lists)
  {
    hide IsStrictWeakOrderOn;
    if Forkless(lists) {
      forall ms | Lists(ms) <= lists
        ensures IsStrictWeakOrderOn(ms)
      {
        ForklessIsStrictWeakOrder(ms);
      }
    } else {
      var a, b, c :| a in lists && b in lists && c in lists && b <= a && b <= c && !(a <= c || c <= a);
      var x := Candidate([], 0);
      ForkSpoils(a, b, c, x);
      assert Lists({Match(WordBoundary, a, x), Match(WordBoundary, b, x), Match(WordBoundary, c, x)}) <= lists;
    }
  }

  lemma OneQueryIsForkless(ms: set<Match>, n: nat)
    requires OneQuery(ms, n)
    ensures Forkless(Lists(ms))
  {
    forall a, b, c | a in Lists(ms) && b in Lists(ms) && c in Lists(ms) && b <= a && b <= c
      ensures a <= c || c <= a
    {
      PrefixesAgree(a, b);
      PrefixesAgree(b, c);
      DifferenceOrder(a, b, c);
      PrefixesAgree(a, c);
    }
  }

  /** The matches of a single query have no fork. */
  lemma OneQueryIsStrictWeakOrder(ms: set<Match>, n: nat)
    requires OneQuery(ms, n)
    ensures IsStrictWeakOrderOn(ms)
  {
    OneQueryIsForkless(ms, n);
    ForklessIsStrictWeakOrder(ms);
  }

  // ---- What the order is ----

  /** The first place within the common length where two lists differ has the larger number in `a`. */
  ghost predicate LargerFirst(a: seq<nat>, b: seq<nat>) {
    exists k :: 0 <= k < |a| && k < |b| && a[..k] == b[..k] && a[k] > b[k]
  }

  lemma BehindFirst(s: seq<nat>, k: nat)
    requires 0 < k < |s|
    ensures s[1..][..k - 1] == s[..k][1..] && s[1..][k - 1] == s[k]
  {
  }

  lemma {:induction false} LargerMeans(a: seq<nat>, b: seq<nat>)
    ensures FirstDifference(a, b) > 0 <==> LargerFirst(a, b)
  {
    if a != [] && b != [] && a[0] == b[0] {
      LargerMeans(a[1..], b[1..]);
      if LargerFirst(a[1..], b[1..]) {
        var k :| 0 <= k < |a[1..]| && k < |b[1..]| && a[1..][..k] == b[1..][..k] && a[1..][k] > b[1..][k];
        assert a[..k + 1] == [a[0]] + a[1..][..k] && b[..k + 1] == [b[0]] + b[1..][..k];
        assert a[k + 1] > b[k + 1];
      }
      if LargerFirst(a, b) {
        var k :| 0 <= k < |a| && k < |b| && a[..k] == b[..k] && a[k] > b[k];
        assert k > 0;
        BehindFirst(a, k);
        BehindFirst(b, k);
        assert a[1..][..k - 1] == b[1..][..k - 1] && a[1..][k - 1] > b[1..][k - 1];
      }
    } else if a != [] && b != [] {
      assert a[..0] == b[..0];
      forall k | 0 < k < |a| && k < |b|
        ensures a[..k] != b[..k]
      {
        assert a[..k][0] == a[0] && b[..k][0] == b[0];
      }
    }
  }

  /** From the best to the worst. */
  const KINDS := [ExactSensitive, ExactInsensitive, PrefixSensitive, PrefixInsensitive, WordBoundary]

  /** `a` may stand in front of `b`: it is of a better kind; or of the same kind with larger indices,
      or no smaller ones and a smaller priority, or else with a name that does not come later. */
  ghost predicate MayPrecede(a: Match, b: Match) {
    || (exists i, j :: 0 <= i < j < 5 && a.kind == KINDS[i] && b.kind == KINDS[j])
    || (a.kind == b.kind
        && (var lists := a.kind == WordBoundary;
            || (lists && LargerFirst(a.indices, b.indices))
            || ((lists ==> !LargerFirst(b.indices, a.indices))
                && (|| a.candidate.priority < b.candidate.priority
                    || (a.candidate.priority == b.candidate.priority && NotLater(a.candidate.name, b.candidate.name))))))
  }

  /** The names are in alphabetical order, or equal. */
  ghost predicate NotLater(a: string, b: string) {
    a <= b || exists k :: 0 <= k < |a| && k < |b| && a[..k] == b[..k] && a[k] < b[k]
  }

  lemma NotLaterMeans(a: string, b: string)
    ensures NotLater(a, b) <==> !StringLess(b, a)
  {
    StringLessMeans(a, b);
    StringOrder(a, b, a);
    StringOrder(b, a, b);
    hide StringLess;
  }

  lemma KindsMean(a: Kind, b: Kind)
    ensures (exists i, j :: 0 <= i < j < 5 && a == KINDS[i] && b == KINDS[j]) <==> a.Value() > b.Value()
  {
    assert KINDS[4 - a.Value()] == a && KINDS[4 - b.Value()] == b;
    forall i | 0 <= i < 5
      ensures KINDS[i].Value() == 4 - i
    {
    }
  }

  /** This is the order of the comparator. */
  lemma OrderMeans(a: Match, b: Match)
    ensures !Less(b, a) <==> MayPrecede(a, b)
  {
    KindsMean(a.kind, b.kind);
    KindsMean(b.kind, a.kind);
    DifferenceIsOdd(a.indices, b.indices);
    LargerMeans(a.indices, b.indices);
    LargerMeans(b.indices, a.indices);
    NotLaterMeans(a.candidate.name, b.candidate.name);
    hide LargerFirst, NotLater, FirstDifference, StringLess;
  }

  /** `find_match` against its meaning: what is found, of which kind, with which indices. */
  ghost predicate IsMatchOf(candidate: Candidate, query: string, r: Option<Match>) {
    var name := candidate.name;
    if |query| > |name| then r == None
    else if query <= name then
      r == Some(Match(if |name| == |query| then ExactSensitive else PrefixSensitive, [], candidate))
    else if LowerAll(query) <= LowerAll(name) then
      r == Some(Match(if |name| == |query| then ExactInsensitive else PrefixInsensitive, [], candidate))
    else exists raw :: IsSegmentation(raw, Tokens(name)) && IsBoundaryMatchOf(candidate, query, LowerEach(raw), r)
  }

  ghost predicate IsBoundaryMatchOf(candidate: Candidate, query: string, parts: seq<string>, r: Option<Match>) {
    match r
    case None => !Decomposable(parts, Alnums(LowerAll(query)))
    case Some(m) => && m.kind == WordBoundary && m.candidate == candidate
                    && IsGreatest(parts, Alnums(LowerAll(query)), m.indices)
  }

  lemma IsBoundaryResult(candidate: Candidate, query: string, raw: seq<string>, indices: seq<nat>)
    requires |query| <= |candidate.name| && !(query <= LowerAll(candidate.name)) && !(query <= candidate.name)
    requires forall k | 0 <= k < |query| :: IsLower(query[k])
    requires forall j, k | 0 <= j < |raw| && 0 <= k < |raw[j]| :: IsLower(raw[j][k])
    requires IsSegmentation(raw, Tokens(candidate.name)) && IsGreatest(raw, query, indices)
    ensures IsMatchOf(candidate, query, Some(Match(WordBoundary, indices, candidate)))
  {
    LowerStays(query);
    forall j | 0 <= j < |raw| ensures LowerAll(raw[j]) == raw[j] {
      LowerStays(raw[j]);
    }
    assert LowerEach(raw) == raw;
    hide IsSegmentation, IsGreatest, Tokens, LowerAll, LowerEach, Alnums;
    assert IsBoundaryMatchOf(candidate, query, LowerEach(raw), Some(Match(WordBoundary, indices, candidate)));
  }

  lemma TokensOfTwo()
    ensures Tokens("a_bb") == [Token('a', false), Token('b', true), Token('b', false)]
  {
    assert "a_bb"[..3] == "a_b" && "a_b"[..2] == "a_" && "a_"[..1] == "a" && "a"[..0] == "";
    assert Tokens("a") == [Token('a', false)];
    assert Tokens("a_") == [Token('a', false)];
    assert EndsApart("a_");
    assert Tokens("a_b") == [Token('a', false), Token('b', true)];
    assert !EndsApart("a_b");
  }

  lemma WordsOfTwo()
    ensures IsSegmentation(["a", "bb"], Tokens("a_bb"))
  {
    TokensOfTwo();
    Snoc([], "a");
    Snoc(["a"], "bb");
    assert [] + ["a"] == ["a"] && ["a"] + ["bb"] == ["a", "bb"];
    hide Tokens, Starts, Join;
    assert Join(["a", "bb"]) == "abb" && Starts(["a", "bb"]) == {0, 1};
  }

  lemma WordsOfOne()
    ensures IsSegmentation(["a"], Tokens("_a"))
  {
    assert "_a"[..1] == "_" && "_"[..0] == "";
    assert Tokens("_a") == [Token('a', true)];
    Snoc([], "a");
    assert [] + ["a"] == ["a"];
  }

  /** The words begin differently, so there is only one way to take the query from them. */
  lemma GreatestOfTwo(n: nat)
    requires 1 <= n <= 2
    ensures IsGreatest(["a", "bb"], "abb"[..n + 1], [1, n])
  {
    var query := "abb"[..n + 1];
    PickedOfTwo(1, n);
    assert "a"[..1] + "bb"[..n] == query;
    forall idx | IsDecomposition(["a", "bb"], query, idx)
      ensures idx == [1, n]
    {
      PickedOfTwo(idx[0], idx[1]);
      assert idx == [idx[0], idx[1]];
    }
  }

  lemma PickedOfTwo(i: nat, j: nat)
    requires i <= 1 && j <= 2
    ensures Picked(["a", "bb"], [i, j]) == "a"[..i] + "bb"[..j]
    ensures i == 0 < j ==> Picked(["a", "bb"], [i, j])[0] == 'b'
  {
    assert ["a", "bb"][1..] == ["bb"] && [i, j][1..] == [j];
    assert Picked(["bb"], [j]) == "bb"[..j] + [];
    assert "bb"[..j] + [] == "bb"[..j];
  }

  lemma {:induction false} LowerStays(s: string)
    requires forall k | 0 <= k < |s| :: IsLower(s[k])
    ensures LowerAll(s) == s && Alnums(s) == s
  {
    if s != [] {
      LowerStays(s[..|s| - 1]);
      assert s == s[..|s| - 1] + [s[|s| - 1]];
    }
  }

  lemma GreatestOfOne()
    ensures IsGreatest(["a"], "a", [1])
  {
  }

  lemma ResultsOfTwo(priority: int)
    ensures IsMatchOf(Candidate("a_bb", priority), "ab", Some(Match(WordBoundary, [1, 1], Candidate("a_bb", priority))))
    ensures IsMatchOf(Candidate("a_bb", priority), "abb", Some(Match(WordBoundary, [1, 2], Candidate("a_bb", priority))))
  {
    WordsOfTwo();
    GreatestOfTwo(1);
    GreatestOfTwo(2);
    assert "abb"[..3] == "abb" && "abb"[..2] == "ab";
    assert LowerAll("a_bb")[1] == '_';
    hide IsSegmentation, IsGreatest, IsMatchOf, Tokens, LowerAll;
    IsBoundaryResult(Candidate("a_bb", priority), "ab", ["a", "bb"], [1, 1]);
    IsBoundaryResult(Candidate("a_bb", priority), "abb", ["a", "bb"], [1, 2]);
  }

  lemma ResultOfOne(priority: int)
    ensures IsMatchOf(Candidate("_a", priority), "a", Some(Match(WordBoundary, [1], Candidate("_a", priority))))
  {
    WordsOfOne();
    GreatestOfOne();
    assert LowerAll("_a")[0] == '_';
    hide IsSegmentation, IsGreatest, IsMatchOf, Tokens, LowerAll;
    IsBoundaryResult(Candidate("_a", priority), "a", ["a"], [1]);
  }

  /** Across queries the comparator is no ordering: these three results go round in a circle. */
  lemma MixedQueriesCanCycle() returns (a: Match, b: Match, c: Match)
    ensures IsMatchOf(Candidate("a_bb", 2), "abb", Some(a)) && a.indices == [1, 2]
    ensures IsMatchOf(Candidate("a_bb", 0), "ab", Some(b)) && b.indices == [1, 1]
    ensures IsMatchOf(Candidate("_a", 1), "a", Some(c)) && c.indices == [1]
    ensures Less(a, b) && Less(b, c) && Less(c, a)
  {
    hide IsMatchOf;
    a := Match(WordBoundary, [1, 2], Candidate("a_bb", 2));
    b := Match(WordBoundary, [1, 1], Candidate("a_bb", 0));
    c := Match(WordBoundary, [1], Candidate("_a", 1));
    ResultsOfTwo(2);
    ResultsOfTwo(0);
    ResultOfOne(1);
    assert FirstDifference([2], [1]) == 1;
    assert a.indices[1..] == [2] && b.indices[1..] == [1] && c.indices[1..] == [];
  }

  method FindMatch(candidate: Candidate, query: string) returns (r: Option<Match>)
    ensures IsMatchOf(candidate, query, r)
  {
    var c := candidate.name;
    if |query| > |c| {
      return None;
    }
    var cLower, queryLower := LowerAll(c), LowerAll(query);
    var areEqual := |c| == |query|;
    if query == c[..|query|] {
      return Some(Match(if areEqual then ExactSensitive else PrefixSensitive, [], candidate));
    }
    if queryLower == cLower[..|queryLower|] {
      return Some(Match(if areEqual then ExactInsensitive else PrefixInsensitive, [], candidate));
    }
    hide IsSegmentation, Tokens, Decomposable, IsGreatest;
    var words := BreakPartsOfWord(c);
    var found, indices, used := IsBoundaryMatch(words, queryLower, []);
    r := if found then Some(Match(WordBoundary, indices, candidate)) else None;
    assert IsBoundaryMatchOf(candidate, query, words, r);
  }

  /** A candidate is found exactly when it is long enough and the query's alphanumerics are a
      concatenation of word prefixes; the prefix tests only refine the kind. */
  lemma FoundExactlyWhen(candidate: Candidate, query: string, r: Option<Match>, raw: seq<string>)
    requires IsMatchOf(candidate, query, r) && IsSegmentation(raw, Tokens(candidate.name))
    ensures r.Some? <==> |query| <= |candidate.name|
                         && Decomposable(LowerEach(raw), Alnums(LowerAll(query)))
  {
    var name := candidate.name;
    if |query| <= |name| {
      if LowerAll(query) <= LowerAll(name) {
        PrefixIsBoundaryMatch(name, query, raw);
      } else {
        var raw' :| IsSegmentation(raw', Tokens(name)) && IsBoundaryMatchOf(candidate, query, LowerEach(raw'), r);
        SegmentationIsUnique(raw, raw', Tokens(name));
      }
    }
  }

  lemma MatchSum(candidate: Candidate, query: string, m: Match)
    requires IsMatchOf(candidate, query, Some(m))
    ensures m.candidate == candidate
    ensures m.kind.WordBoundary? ==> Sum(m.indices) == |Alnums(LowerAll(query))|
  {
    if m.kind.WordBoundary? {
      var raw :| IsSegmentation(raw, Tokens(candidate.name)) && IsBoundaryMatchOf(candidate, query, LowerEach(raw), Some(m));
      SumIsLength(LowerEach(raw), Alnums(LowerAll(query)), m.indices);
    }
  }

  /** The answer is unique. */
  lemma MatchIsUnique(candidate: Candidate, query: string, r: Option<Match>, r': Option<Match>)
    requires IsMatchOf(candidate, query, r) && IsMatchOf(candidate, query, r')
    ensures r == r'
  {
    var name, wanted := candidate.name, Alnums(LowerAll(query));
    if |query| <= |name| && !(query <= name) && !(LowerAll(query) <= LowerAll(name)) {
      var raw :| IsSegmentation(raw, Tokens(name)) && IsBoundaryMatchOf(candidate, query, LowerEach(raw), r);
      var raw' :| IsSegmentation(raw', Tokens(name)) && IsBoundaryMatchOf(candidate, query, LowerEach(raw'), r');
      SegmentationIsUnique(raw, raw', Tokens(name));
      if r.Some? && r'.Some? {
        LexLessIsAsymmetric(r.value.indices, r'.value.indices);
      }
    }
  }

  lemma LexLessIsAsymmetric(a: seq<nat>, b: seq<nat>)
    requires |a| == |b|
    ensures !(LexLess(a, b) && LexLess(b, a))
  {
    if LexLess(a, b) {
      var j :| 0 <= j < |a| && a[..j] == b[..j] && a[j] < b[j];
      forall k | 0 <= k < |a|
        ensures !(a[..k] == b[..k] && b[k] < a[k])
      {
        assert k < j ==> a[k] == a[..j][k] == b[..j][k] == b[k];
        assert k > j ==> a[..k][j] != b[..k][j];
      }
    }
  }

  ghost predicate Ordered(ms: seq<Match>) {
    forall i, j | 0 <= i < j < |ms| :: !Less(ms[j], ms[i])
  }

  lemma OrderedMeans(ms: seq<Match>)
    ensures Ordered(ms) <==> forall i, j | 0 <= i < j < |ms| :: MayPrecede(ms[i], ms[j])
  {
    hide Less, MayPrecede;
    forall i, j | 0 <= i < j < |ms|
      ensures !Less(ms[j], ms[i]) <==> MayPrecede(ms[i], ms[j])
    {
      OrderMeans(ms[i], ms[j]);
    }
  }

  function Elements(ms: seq<Match>): set<Match> {
    set m | m in ms
  }

  /** Inserting before the first element that is not smaller keeps the order. */
  lemma InsertOrdered(ms: seq<Match>, all: set<Match>, i: nat, m: Match)
    requires IsStrictWeakOrderOn(all) && Elements(ms) <= all && m in all
    requires Ordered(ms) && i <= |ms|
    requires forall j | 0 <= j < i :: !Less(m, ms[j])
    requires i < |ms| ==> Less(m, ms[i])
    ensures Ordered(ms[..i] + [m] + ms[i..])
  {
    hide Less;
    forall j | i <= j < |ms|
      ensures !Less(ms[j], m)
    {
      assert ms[i] in Elements(ms) && ms[j] in Elements(ms);
    }
  }

  lemma InsertCounts(ms: seq<Match>, i: nat, m: Match)
    requires i <= |ms|
    ensures multiset(ms[..i] + [m] + ms[i..]) == multiset(ms) + multiset{m}
    ensures Elements(ms[..i] + [m] + ms[i..]) == Elements(ms) + {m}
  {
    assert ms == ms[..i] + ms[i..];
  }

  method Insert(ms: seq<Match>, ghost all: set<Match>, m: Match) returns (r: seq<Match>)
    requires IsStrictWeakOrderOn(all) && Elements(ms) <= all && m in all && Ordered(ms)
    ensures Ordered(r) && Elements(r) <= all && multiset(r) == multiset(ms) + multiset{m}
  {
    hide IsStrictWeakOrderOn, Less, Ordered, Elements;
    var i := 0;
    while i < |ms| && !Less(m, ms[i])
      invariant 0 <= i <= |ms|
      invariant forall j | 0 <= j < i :: !Less(m, ms[j])
    {
      i := i + 1;
    }
    InsertOrdered(ms, all, i, m);
    InsertCounts(ms, i, m);
    r := ms[..i] + [m] + ms[i..];
  }

  /** Stands for std::sort: its comparator must be a strict weak order, its result is an ordered
      permutation.  Which one is left to the library. */
  method Sort(ms: seq<Match>) returns (sorted: seq<Match>)
    requires IsStrictWeakOrderOn(Elements(ms))
    ensures Ordered(sorted) && multiset(sorted) == multiset(ms)
  {
    sorted := [];
    hide IsStrictWeakOrderOn, Less;
    for k := 0 to |ms|
      invariant Ordered(sorted) && multiset(sorted) == multiset(ms[..k])
      invariant Elements(sorted) <= Elements(ms)
    {
      sorted := Insert(sorted, Elements(ms), ms[k]);
      assert ms[..k + 1] == ms[..k] + [ms[k]];
    }
    assert ms[..|ms|] == ms;
  }

  function Present(found: seq<Option<Match>>): seq<Match> {
    if found == [] then []
    else Present(found[..|found| - 1]) + (if found[|found| - 1].Some? then [found[|found| - 1].value] else [])
  }

  /** The answers to `query` of the first candidates, candidate by candidate. */
  ghost predicate Answers(candidates: seq<Candidate>, query: string, found: seq<Option<Match>>) {
    |found| == |candidates| && forall i | 0 <= i < |found| :: IsMatchOf(candidates[i], query, found[i])
  }

  lemma NothingAnswered(query: string)
    ensures Answers([], query, []) && Present([]) == []
  {
  }

  lemma OneMoreAnswered(candidates: seq<Candidate>, i: nat, query: string, found: seq<Option<Match>>, r: Option<Match>)
    requires i < |candidates| && Answers(candidates[..i], query, found) && IsMatchOf(candidates[i], query, r)
    ensures Answers(candidates[..i + 1], query, found + [r])
    ensures Present(found + [r]) == Present(found) + (if r.Some? then [r.value] else [])
  {
    hide IsMatchOf;
    assert (found + [r])[..|found|] == found;
  }

  lemma {:induction false} PresentSums(candidates: seq<Candidate>, query: string, found: seq<Option<Match>>)
    requires Answers(candidates, query, found)
    ensures OneQuery(Elements(Present(found)), |Alnums(LowerAll(query))|)
    decreases |found|
  {
    if found != [] {
      var n := |found| - 1;
      PresentSums(candidates[..n], query, found[..n]);
      if found[n].Some? {
        MatchSum(candidates[n], query, found[n].value);
      }
    }
  }

  /** `find_and_sort_matches`: an ordered permutation of the answers; `found` lists them unsorted. */
  method FindAndSortMatches(candidates: seq<Candidate>, query: string)
    returns (results: seq<Match>, ghost found: seq<Option<Match>>)
    ensures Answers(candidates, query, found)
    ensures multiset(results) == multiset(Present(found))
    ensures forall i, j | 0 <= i < j < |results| :: MayPrecede(results[i], results[j])
  {
    hide Answers, Present, Ordered, OneQuery, IsMatchOf, IsStrictWeakOrderOn;
    results, found := [], [];
    NothingAnswered(query);
    for i := 0 to |candidates|
      invariant Answers(candidates[..i], query, found)
      invariant results == Present(found)
    {
      var r := FindMatch(candidates[i], query);
      OneMoreAnswered(candidates, i, query, found, r);
      found := found + [r];
      if r.Some? {
        results := results + [r.value];
      }
    }
    assert candidates[..|candidates|] == candidates;
    PresentSums(candidates, query, found);
    OneQueryIsStrictWeakOrder(Elements(results), |Alnums(LowerAll(query))|);
    results := Sort(results);
    OrderedMeans(results);
  }
}
