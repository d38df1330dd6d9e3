/**
 The backtracking word-boundary matcher of rct/StringTokenizer.h.
 */
module Boundary {
  import opened Ascii
  import opened Common
  import opened Words

  /** The text picked by taking the first `idx[j]` characters of every part. */
  function Picked(parts: seq<string>, idx: seq<nat>): string
    requires |idx| == |parts|
    requires forall j | 0 <= j < |idx| :: idx[j] <= |parts[j]|
  {
    if parts == [] then [] else parts[0][..idx[0]] + Picked(parts[1..], idx[1..])
  }

  /** `query` is a concatenation of prefixes of the parts, in order, with the given lengths. */
  ghost predicate IsDecomposition(parts: seq<string>, query: string, idx: seq<nat>) {
    && |idx| == |parts|
    && (forall j | 0 <= j < |idx| :: idx[j] <= |parts[j]|)
    && Picked(parts, idx) == query
  }

  ghost predicate Decomposable(parts: seq<string>, query: string) {
    exists idx :: IsDecomposition(parts, query, idx)
  }

  ghost predicate LexLess(a: seq<nat>, b: seq<nat>)
    requires |a| == |b|
  {
    exists k :: 0 <= k < |a| && a[..k] == b[..k] && a[k] < b[k]
  }

  ghost predicate IsGreatest(parts: seq<string>, query: string, best: seq<nat>) {
    && IsDecomposition(parts, query, best)
    && forall idx | IsDecomposition(parts, query, idx) :: idx == best || LexLess(idx, best)
  }

  function Sum(idx: seq<nat>): nat {
    if idx == [] then 0 else idx[0] + Sum(idx[1..])
  }

  function Zeros(n: nat): (z: seq<nat>)
    ensures |z| == n && forall j | 0 <= j < n :: z[j] == 0
  {
    seq(n, _ => 0)
  }

  lemma {:induction false} SumIsLength(parts: seq<string>, query: string, idx: seq<nat>)
    requires IsDecomposition(parts, query, idx)
    ensures Sum(idx) == |query|
    decreases |parts|
  {
    if parts != [] {
      SumIsLength(parts[1..], Picked(parts[1..], idx[1..]), idx[1..]);
    }
  }

  /** The empty query is decomposed by zeros and by nothing else. */
  lemma {:induction false} EmptyQuery(parts: seq<string>)
    ensures IsGreatest(parts, [], Zeros(|parts|))
    decreases |parts|
  {
    if parts != [] {
      EmptyQuery(parts[1..]);
      assert Zeros(|parts|)[1..] == Zeros(|parts| - 1);
      forall idx | IsDecomposition(parts, [], idx)
        ensures idx == Zeros(|parts|)
      {
        assert IsDecomposition(parts[1..], [], idx[1..]);
        assert idx == [idx[0]] + idx[1..];
        assert Zeros(|parts|) == [0] + Zeros(|parts| - 1);
      }
    }
  }

  /** Peeling off the first part. */
  lemma FirstPart(parts: seq<string>, query: string, idx: seq<nat>)
    requires parts != [] && |idx| == |parts|
    ensures IsDecomposition(parts, query, idx)
        <==> idx[0] <= |parts[0]| && idx[0] <= |query| && parts[0][..idx[0]] == query[..idx[0]]
             && IsDecomposition(parts[1..], query[idx[0]..], idx[1..])
  {
    if IsDecomposition(parts, query, idx) {
      assert parts[0][..idx[0]] == query[..idx[0]];
      assert Picked(parts[1..], idx[1..]) == query[idx[0]..];
    }
    if idx[0] <= |parts[0]| && idx[0] <= |query| && parts[0][..idx[0]] == query[..idx[0]]
       && IsDecomposition(parts[1..], query[idx[0]..], idx[1..]) {
      assert query == query[..idx[0]] + query[idx[0]..];
      forall j | 0 <= j < |idx|
        ensures idx[j] <= |parts[j]|
      {
        if j > 0 { assert idx[1..][j - 1] <= |parts[1..][j - 1]|; }
      }
    }
  }

  /** No decomposition takes more than `i` characters of the first part. */
  ghost predicate FirstAtMost(parts: seq<string>, query: string, i: int) {
    forall idx | IsDecomposition(parts, query, idx) :: idx != [] && idx[0] <= i
  }

  lemma CommonPrefixBounds(parts: seq<string>, query: string, n: nat)
    requires parts != [] && n <= |parts[0]| && n <= |query|
    requires n < |parts[0]| && n < |query| ==> parts[0][n] != query[n]
    ensures FirstAtMost(parts, query, n)
  {
    forall idx | IsDecomposition(parts, query, idx)
      ensures idx[0] <= n
    {
      FirstPart(parts, query, idx);
      assert forall j | 0 <= j < idx[0] :: parts[0][..idx[0]][j] == query[..idx[0]][j];
    }
  }

  lemma OneLess(parts: seq<string>, query: string, i: nat)
    requires parts != [] && i <= |query|
    requires FirstAtMost(parts, query, i) && !Decomposable(parts[1..], query[i..])
    ensures FirstAtMost(parts, query, i - 1)
  {
    forall idx | IsDecomposition(parts, query, idx)
      ensures idx[0] <= i - 1
    {
      FirstPart(parts, query, idx);
    }
  }

  lemma NothingLeft(parts: seq<string>, query: string)
    requires FirstAtMost(parts, query, -1)
    ensures !Decomposable(parts, query)
  {
  }

  lemma NoParts(query: string)
    requires query != []
    ensures !Decomposable([], query)
  {
  }

  /** The longest first step with a solvable rest, followed by the greatest rest, is greatest. */
  lemma LongestFirst(parts: seq<string>, query: string, i: nat, rest: seq<nat>)
    requires parts != [] && i <= |parts[0]| && i <= |query| && parts[0][..i] == query[..i]
    requires IsGreatest(parts[1..], query[i..], rest)
    requires FirstAtMost(parts, query, i)
    ensures IsGreatest(parts, query, [i] + rest)
  {
    var best := [i] + rest;
    FirstPart(parts, query, best);
    forall idx | IsDecomposition(parts, query, idx)
      ensures idx == best || LexLess(idx, best)
    {
      FirstPart(parts, query, idx);
      if idx[0] < i {
        assert idx[..0] == best[..0];
      } else if idx[1..] == rest {
        assert idx == [idx[0]] + idx[1..];
      } else {
        var k :| 0 <= k < |rest| && idx[1..][..k] == rest[..k] && idx[1..][k] < rest[k];
        assert idx[..k + 1] == [idx[0]] + idx[1..][..k];
        assert best[..k + 1] == [i] + rest[..k];
        assert idx[k + 1] < best[k + 1];
      }
    }
  }

  lemma GreatestDecomposes(parts: seq<string>, query: string, best: seq<nat>)
    requires IsGreatest(parts, query, best)
    ensures Decomposable(parts, query) && |best| == |parts|
  {
  }

  /** `common_prefix` */
  method CommonPrefix(a: string, b: string) returns (n: nat)
    ensures n <= |a| && n <= |b| && a[..n] == b[..n]
    ensures n < |a| && n < |b| ==> a[n] != b[n]
  {
    var l := if |a| < |b| then |a| else |b|;
    for i := 0 to l
      invariant a[..i] == b[..i]
    {
      if a[i] != b[i] {
        return i;
      }
    }
    return l;
  }

  /** The recursive overload of `is_boundary_match`.  `used` counts the entries of `indices` that
      the successful path has written; entries behind it are 0 or what the caller left there. */
  method MatchFrom(parts: seq<string>, query: string, indices: array<nat>, start: nat, current: nat)
    returns (r: bool, ghost used: nat)
    requires indices.Length == |parts| && start <= |query| && current <= |parts|
    modifies indices
    ensures r <==> Decomposable(parts[current..], query[start..])
    ensures current + used <= |parts| && (!r ==> used == 0)
    ensures r ==> IsGreatest(parts[current..], query[start..],
                             indices[current..current + used] + Zeros(|parts| - current - used))
    ensures forall j | 0 <= j < current :: indices[j] == old(indices[j])
    ensures forall j | current + used <= j < |parts| :: indices[j] == 0 || indices[j] == old(indices[j])
    decreases |parts| - current
  {
    hide IsGreatest, IsDecomposition, Decomposable, FirstAtMost;
    used := 0;
    ghost var here, wanted := parts[current..], query[start..];
    if start == |query| {
      EmptyQuery(here);
      GreatestDecomposes(here, [], Zeros(|here|));
      assert wanted == [];
      assert indices[current..current] + Zeros(|here|) == Zeros(|here|);
      return true, used;
    } else if current == |parts| {
      NoParts(wanted);
      assert here == [];
      return false, used;
    }
    assert here[0] == parts[current] && here[1..] == parts[current + 1..];
    var longest := CommonPrefix(parts[current], query[start..]);
    CommonPrefixBounds(here, wanted, longest);
    var i: int := longest;
    while i >= 0
      invariant -1 <= i <= longest
      invariant FirstAtMost(here, wanted, i)
      invariant forall j | 0 <= j < current :: indices[j] == old(indices[j])
      invariant forall j | current < j < |parts| :: indices[j] == 0 || indices[j] == old(indices[j])
      invariant i == longest || indices[current] == i + 1
    {
      indices[current] := i;
      assert wanted[i..] == query[start + i..];
      ShorterPrefix(here[0], wanted, longest, i);
      var found, usedBelow := MatchFrom(parts, query, indices, start + i, current + 1);
      if found {
        used := usedBelow + 1;
        ghost var rest := indices[current + 1..current + used] + Zeros(|parts| - current - used);
        LongestFirst(here, wanted, i, rest);
        assert [i as nat] + rest == indices[current..current + used] + Zeros(|parts| - current - used);
        GreatestDecomposes(here, wanted, [i] + rest);
        return true, used;
      }
      OneLess(here, wanted, i);
      i := i - 1;
    }
    NothingLeft(here, wanted);
    return false, used;
  }

  lemma GreatestSum(parts: seq<string>, query: string, best: seq<nat>)
    requires IsGreatest(parts, query, best)
    ensures Sum(best) == |query|
  {
    SumIsLength(parts, query, best);
  }

  /** `List::resize`: keeps what fits, fills up with zeros. */
  function Resized(l: seq<nat>, n: nat): (r: seq<nat>)
    ensures |r| == n
  {
    if n <= |l| then l[..n] else l + Zeros(n - |l|)
  }

  /** The public overload of `is_boundary_match`. */
  method IsBoundaryMatch(parts: seq<string>, query: string, indices: seq<nat>)
    returns (r: bool, indices': seq<nat>, ghost used: nat)
    ensures |indices'| == |parts| && used <= |parts|
    ensures r <==> Decomposable(parts, Alnums(query))
    ensures r ==> IsGreatest(parts, Alnums(query), indices'[..used] + Zeros(|parts| - used))
    ensures r && indices == [] ==> IsGreatest(parts, Alnums(query), indices') && Sum(indices') == |Alnums(query)|
    ensures forall j | used <= j < |parts| :: indices'[j] == 0 || indices'[j] == Resized(indices, |parts|)[j]
  {
    hide IsGreatest, Decomposable, Alnums;
    var stripped := Alnums(query);
    var resized := Resized(indices, |parts|);
    var cells := new nat[|parts|](i requires 0 <= i < |parts| => resized[i]);
    assert parts[0..] == parts && stripped[0..] == stripped;
    r, used := MatchFrom(parts, stripped, cells, 0, 0);
    indices' := cells[..];
    if r && indices == [] {
      assert indices' == indices'[..used] + Zeros(|parts| - used);
      GreatestSum(parts, stripped, indices');
    }
  }

  // ---- A prefix of the identifier is always a boundary match. ----

  lemma {:induction false} PickedSnoc(parts: seq<string>, idx: seq<nat>, p: string, i: nat)
    requires |idx| == |parts| && (forall j | 0 <= j < |idx| :: idx[j] <= |parts[j]|) && i <= |p|
    ensures Picked(parts + [p], idx + [i]) == Picked(parts, idx) + p[..i]
    decreases |parts|
  {
    if parts == [] {
      assert [p][1..] == [] && [i][1..] == [];
    } else {
      PickedSnoc(parts[1..], idx[1..], p, i);
      assert (parts + [p])[1..] == parts[1..] + [p] && (idx + [i])[1..] == idx[1..] + [i];
    }
  }

  lemma {:induction false} PrefixDecomposes(parts: seq<string>, n: nat) returns (idx: seq<nat>)
    requires n <= |Join(parts)|
    ensures IsDecomposition(parts, Join(parts)[..n], idx)
    decreases |parts|
  {
    if parts == [] {
      idx := [];
    } else {
      var front, p := parts[..|parts| - 1], parts[|parts| - 1];
      var l := |Join(front)|;
      var inFront, inLast := if n <= l then n else l, if n <= l then 0 else n - l;
      var before := PrefixDecomposes(front, inFront);
      idx := before + [inLast];
      PickedSnoc(front, before, p, inLast);
      assert parts == front + [p];
      assert Join(parts)[..n] == Join(front)[..inFront] + p[..inLast];
    }
  }

  lemma {:induction false} AlnumsOfPrefix(s: string, n: nat)
    requires n <= |s|
    ensures Alnums(s[..n]) <= Alnums(s)
  {
    if n < |s| {
      AlnumsOfPrefix(s[..|s| - 1], n);
      assert s[..|s| - 1][..n] == s[..n];
    } else {
      assert s[..n] == s;
    }
  }

  lemma {:induction false} AlnumsLowered(s: string)
    ensures Alnums(LowerAll(s)) == LowerAll(Alnums(s))
  {
    if s != [] {
      AlnumsLowered(s[..|s| - 1]);
      assert LowerAll(s)[..|s| - 1] == LowerAll(s[..|s| - 1]);
      assert LowerAll(Alnums(s)) == LowerAll(Alnums(s[..|s| - 1])) + (if IsAlnum(s[|s| - 1]) then [ToLower(s[|s| - 1])] else []);
    }
  }

  /** Every case-insensitive prefix of an identifier is also a boundary match of its words. */
  lemma PrefixIsBoundaryMatch(name: string, query: string, raw: seq<string>)
    requires IsSegmentation(raw, Tokens(name))
    requires LowerAll(query) <= LowerAll(name)
    ensures Decomposable(LowerEach(raw), Alnums(LowerAll(query)))
  {
    var parts, lowered := LowerEach(raw), LowerAll(name);
    PartsConserveText(name, raw);
    AlnumsLowered(name);
    AlnumsOfPrefix(lowered, |query|);
    var wanted := Alnums(LowerAll(query));
    assert lowered[..|query|] == LowerAll(query);
    var idx := PrefixDecomposes(parts, |wanted|);
    assert wanted == Join(parts)[..|wanted|];
  }
}
