/** The common tail of the AS paths to one network. */
module Bottleneck {
  import opened Wrappers
  import opened Ordering
  import opened Networks

  type AsPath = seq<nat>

  function Reverse(p: AsPath): AsPath {
    seq(|p|, i requires 0 <= i < |p| => p[|p| - 1 - i])
  }

  predicate ShortestFirst(p: AsPath, q: AsPath) {
    |p| <= |q|
  }

  /** Length of the longest common prefix. */
  function Shared(c: AsPath, p: AsPath): (k: nat)
    ensures k <= |c| && k <= |p| && c[..k] == p[..k]
    ensures k < |c| && k < |p| ==> c[k] != p[k]
  {
    if c == [] || p == [] || c[0] != p[0] then 0
    else
      assert forall k :: 0 <= k < |c| && k < |p| && c[1..][..k] == p[1..][..k] ==> c[..k + 1] == p[..k + 1];
      1 + Shared(c[1..], p[1..])
  }

  predicate SharesHead(c: AsPath, p: AsPath) {
    c != [] && p != [] && c[0] == p[0]
  }

  /** Cuts the candidate where a path of the same origin first differs from it. */
  function Trim(c: AsPath, p: AsPath): AsPath {
    var k := Shared(c, p);
    if !SharesHead(c, p) || k == |c| || k == |p| then c else c[..k]
  }

  function TrimAll(c: AsPath, paths: seq<AsPath>): AsPath {
    if paths == [] then c else Trim(TrimAll(c, paths[..|paths| - 1]), Reverse(paths[|paths| - 1]))
  }

  /** The loop's result: none without paths, else the first shortest path cut by the others in turn. */
  function CommonSuffix(paths: seq<AsPath>): Option<AsPath> {
    if paths == [] then None
    else
      var sorted := SortBy(ShortestFirst, paths);
      InsertIntoMembers(ShortestFirst, paths[0], SortBy(ShortestFirst, paths[1..]));
      assert paths[0] in sorted;
      Some(Reverse(TrimAll(Reverse(sorted[0]), sorted[1..])))
  }

  method FindCommonSuffix(paths: seq<AsPath>) returns (r: Option<AsPath>)
    ensures r == CommonSuffix(paths)
  {
    if paths == [] {
      return None;
    }
    var sorted := SortBy(ShortestFirst, paths);
    assert sorted != [] by {
      InsertIntoMembers(ShortestFirst, paths[0], SortBy(ShortestFirst, paths[1..]));
      assert paths[0] in sorted;
    }
    var common := Reverse(sorted[0]);
    ghost var rest := sorted[1..];
    var j := 1;
    while j < |sorted|
      invariant 1 <= j <= |sorted|
      invariant common == TrimAll(Reverse(sorted[0]), rest[..j - 1])
    {
      var path := Reverse(sorted[j]);
      assert rest[..j][..j - 1] == rest[..j - 1] && rest[..j][j - 1] == sorted[j];
      common := CutAtDifference(common, path);
      j := j + 1;
    }
    assert rest[..j - 1] == rest;
    return Some(Reverse(common));
  }

  /** The inner loop. */
  method CutAtDifference(common: AsPath, path: AsPath) returns (r: AsPath)
    ensures r == Trim(common, path)
  {
    r := common;
    if common == [] || path == [] || common[0] != path[0] {
      return;
    }
    var i := 1;
    while i < |common| && i < |path|
      invariant 1 <= i && i <= |common| && i <= |path|
      invariant r == common && common[..i] == path[..i]
    {
      if path[i] != common[i] {
        SharedIs(common, path, i);
        return common[..i];
      }
      i := i + 1;
    }
    SharedIs(common, path, i);
  }

  lemma {:induction false} SharedIs(c: AsPath, p: AsPath, i: nat)
    requires i <= |c| && i <= |p| && c[..i] == p[..i] && (i < |c| && i < |p| ==> c[i] != p[i])
    ensures Shared(c, p) == i
  {
    if i > 0 {
      assert c[0] == c[..i][0] == p[..i][0];
      assert c[1..][..i - 1] == c[..i][1..] == p[1..][..i - 1];
      SharedIs(c[1..], p[1..], i - 1);
    }
  }

  /** One network after the other, in any order. */
  method FindAll(table: map<Network, seq<AsPath>>) returns (found: map<Network, AsPath>)
    ensures forall n :: n in found <==> n in table && table[n] != []
    ensures forall n :: n in found ==> CommonSuffix(table[n]) == Some(found[n])
  {
    found := map[];
    var pending := table.Keys;
    while pending != {}
      invariant pending <= table.Keys
      invariant forall n :: n in found <==> n in table && n !in pending && table[n] != []
      invariant forall n :: n in found ==> CommonSuffix(table[n]) == Some(found[n])
      decreases |pending|
    {
      var n :| n in pending;
      pending := pending - {n};
      var r := FindCommonSuffix(table[n]);
      if r.Some? {
        found := found[n := r.value];
      }
    }
  }

  // ---------------------------------------------------------------- what the loop finds

  predicate SuffixOf(s: AsPath, p: AsPath) {
    |s| <= |p| && p[|p| - |s|..] == s
  }

  predicate SameOrigin(p: AsPath, q: AsPath) {
    p != [] && q != [] && p[|p| - 1] == q[|q| - 1]
  }

  ghost predicate FirstShortest(paths: seq<AsPath>, i: nat) {
    && i < |paths|
    && (forall j :: 0 <= j < |paths| ==> |paths[i]| <= |paths[j]|)
    && (forall j :: 0 <= j < i ==> |paths[i]| < |paths[j]|)
  }

  /** A common tail of the base path and of every listed path with its origin. */
  ghost predicate CommonTail(s: AsPath, base: AsPath, paths: seq<AsPath>) {
    SuffixOf(s, base) && forall p :: p in paths && SameOrigin(p, base) ==> SuffixOf(s, p)
  }

  ghost predicate LongestTail(s: AsPath, base: AsPath, paths: seq<AsPath>) {
    CommonTail(s, base, paths) && forall t :: CommonTail(t, base, paths) ==> |t| <= |s|
  }

  lemma ReverseTwice(p: AsPath)
    ensures Reverse(Reverse(p)) == p && |Reverse(p)| == |p|
  {
  }

  lemma ReversedPrefix(s: AsPath, p: AsPath)
    ensures Reverse(s) <= Reverse(p) <==> SuffixOf(s, p)
  {
    if SuffixOf(s, p) {
      assert forall i :: 0 <= i < |s| ==> s[i] == p[|p| - |s| + i];
    }
    if Reverse(s) <= Reverse(p) {
      forall i | 0 <= i < |s| ensures s[i] == p[|p| - |s| + i] {
        assert Reverse(s)[|s| - 1 - i] == Reverse(p)[|s| - 1 - i];
      }
    }
  }

  lemma {:induction false} SharedIsLongest(c: AsPath, p: AsPath, d: AsPath)
    requires d <= c && d <= p
    ensures |d| <= Shared(c, p)
  {
    if d != [] {
      SharedIsLongest(c[1..], p[1..], d[1..]);
    }
  }

  lemma TrimIsStart(c: AsPath, p: AsPath)
    requires |c| <= |p|
    ensures Trim(c, p) <= c && (c != [] ==> Trim(c, p) != [])
    ensures SharesHead(c, p) ==> Trim(c, p) <= p
  {
  }

  lemma TrimKeeps(c: AsPath, p: AsPath, d: AsPath)
    requires d <= c && (SharesHead(c, p) ==> d <= p)
    ensures d <= Trim(c, p)
  {
    if SharesHead(c, p) {
      SharedIsLongest(c, p, d);
    }
  }

  /** `d` is a prefix of the reversed base and of every reversed path that starts like it. */
  ghost predicate CommonStart(d: AsPath, base: AsPath, rest: seq<AsPath>) {
    d <= base && forall p :: p in rest && SharesHead(base, Reverse(p)) ==> d <= Reverse(p)
  }

  /** Cutting by each path in turn leaves the longest prefix shared with all that start alike. */
  lemma {:induction false} TrimAllTail(base: AsPath, paths: seq<AsPath>)
    requires forall p :: p in paths ==> |base| <= |p|
    ensures CommonStart(TrimAll(base, paths), base, paths) && (base != [] ==> TrimAll(base, paths) != [])
    ensures forall d :: CommonStart(d, base, paths) ==> d <= TrimAll(base, paths)
    decreases |paths|
  {
    if paths != [] {
      var front, last := paths[..|paths| - 1], paths[|paths| - 1];
      assert paths == front + [last];
      TrimAllTail(base, front);
      var c := TrimAll(base, front);
      TrimIsStart(c, Reverse(last));
      forall d | CommonStart(d, base, paths) ensures d <= TrimAll(base, paths) {
        assert CommonStart(d, base, front);
        TrimKeeps(c, Reverse(last), d);
      }
    }
  }

  lemma {:induction false} SortHead(paths: seq<AsPath>) returns (i: nat)
    requires paths != []
    ensures SortBy(ShortestFirst, paths) != [] && FirstShortest(paths, i) && SortBy(ShortestFirst, paths)[0] == paths[i]
  {
    if |paths| == 1 {
      i := 0;
    } else {
      var j := SortHead(paths[1..]);
      assert forall k :: 0 < k < |paths| ==> paths[k] == paths[1..][k - 1];
      i := if |paths[0]| <= |paths[j + 1]| then 0 else j + 1;
    }
  }

  lemma SortedTail(paths: seq<AsPath>, i: nat)
    requires FirstShortest(paths, i) && SortBy(ShortestFirst, paths) != [] && SortBy(ShortestFirst, paths)[0] == paths[i]
    ensures forall p :: p in paths <==> p == paths[i] || p in SortBy(ShortestFirst, paths)[1..]
    ensures forall p :: p in SortBy(ShortestFirst, paths)[1..] ==> |paths[i]| <= |p|
  {
    var sorted := SortBy(ShortestFirst, paths);
    SortBySorts(ShortestFirst, paths);
    assert sorted == [sorted[0]] + sorted[1..];
    assert forall p :: p in sorted[1..] ==> p in paths;
  }

  lemma OriginReversed(p: AsPath, base: AsPath)
    ensures SameOrigin(p, base) <==> SharesHead(Reverse(base), Reverse(p))
  {
  }

  lemma TailsAreStarts(s: AsPath, base: AsPath, paths: seq<AsPath>, rest: seq<AsPath>)
    requires forall p :: p in paths <==> p == base || p in rest
    requires forall p :: p in rest ==> |base| <= |p|
    ensures CommonTail(s, base, paths) <==> CommonStart(Reverse(s), Reverse(base), rest)
  {
    ReversedPrefix(s, base);
    forall p | p in rest
      ensures Reverse(s) <= Reverse(p) <==> SuffixOf(s, p)
      ensures SameOrigin(p, base) <==> SharesHead(Reverse(base), Reverse(p))
    {
      ReversedPrefix(s, p);
      OriginReversed(p, base);
    }
  }

  /** The result is the longest common tail of the first shortest path and all paths of its origin. */
  lemma CommonSuffixMeaning(paths: seq<AsPath>) returns (i: nat)
    requires paths != []
    ensures FirstShortest(paths, i) && LongestTail(CommonSuffix(paths).value, paths[i], paths)
  {
    i := SortHead(paths);
    SortedTail(paths, i);
    var base, rest := paths[i], SortBy(ShortestFirst, paths)[1..];
    var r := TrimAll(Reverse(base), rest);
    TrimAllTail(Reverse(base), rest);
    ReverseTwice(r);
    TailsAreStarts(Reverse(r), base, paths, rest);
    forall s | CommonTail(s, base, paths) ensures |s| <= |r| {
      TailsAreStarts(s, base, paths, rest);
      assert Reverse(s) <= r;
    }
  }

  lemma TailsAgree(s: AsPath, t: AsPath, p: AsPath)
    requires SuffixOf(s, p) && SuffixOf(t, p) && |s| == |t|
    ensures s == t
  {
  }

  /** When every path has the same origin, the order in which they were collected does not matter. */
  lemma CommonSuffixOrder(paths: seq<AsPath>, others: seq<AsPath>)
    requires paths != [] && forall p :: p in paths <==> p in others
    requires forall p, q :: p in paths && q in paths ==> SameOrigin(p, q)
    ensures CommonSuffix(paths) == CommonSuffix(others)
  {
    assert paths[0] in others;
    var i := CommonSuffixMeaning(paths);
    var j := CommonSuffixMeaning(others);
    var s, t := CommonSuffix(paths).value, CommonSuffix(others).value;
    assert paths[i] in paths && others[j] in others;
    assert paths[i] in others && others[j] in paths;
    assert SameOrigin(others[j], paths[i]) && SameOrigin(paths[i], others[j]);
    assert CommonTail(s, others[j], others);
    assert CommonTail(t, paths[i], paths);
    TailsAgree(s, t, paths[i]);
  }
}
