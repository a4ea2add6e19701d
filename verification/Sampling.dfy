/** Drawing without bias, and the random maps built from such draws. */
module Sampling {
  import opened Wrappers
  import opened Tries
  import opened Entries
  import opened FlatEntries
  import opened Claims
  import opened ASMaps

  const U64_COUNT: nat := 0x1_0000_0000_0000_0000

  /** The low word of draw times bound, which decides, and the high word, which is the result. */
  function Low(x: nat, n: nat, words: nat): nat
    requires words > 0
  {
    x * n % words
  }

  function High(x: nat, n: nat, words: nat): nat
    requires words > 0
  {
    x * n / words
  }

  function Threshold(n: nat, words: nat): nat
    requires 0 < n <= words
  {
    (words - n) % n
  }

  predicate Taken(x: nat, n: nat, words: nat)
    requires 0 < n <= words
  {
    Low(x, n, words) >= Threshold(n, words)
  }

  /**
   * The loop over a stream of draws: the first draw is taken at once when its low
   * word reaches the bound; the threshold is worked out only otherwise. None when
   * the stream ends first.
   */
  method Below(n: U64, draws: seq<U64>) returns (r: Option<(U64, nat)>)
    requires n > 0
    ensures r.Some? ==> 0 < r.value.1 <= |draws| && Taken(draws[r.value.1 - 1], n, U64_COUNT)
    ensures r.Some? ==> r.value.0 == High(draws[r.value.1 - 1], n, U64_COUNT) && r.value.0 < n
    ensures forall i :: 0 <= i < (if r.Some? then r.value.1 - 1 else |draws|) ==> !Taken(draws[i], n, U64_COUNT)
  {
    if draws == [] {
      return None;
    }
    var used := 1;
    var m := draws[0] * n;
    var low := m % U64_COUNT;
    ThresholdSmall(n, U64_COUNT);
    if low < n {
      var threshold := (U64_COUNT - n) % n;
      while low < threshold
        invariant 1 <= used <= |draws| && m == draws[used - 1] * n && low == Low(draws[used - 1], n, U64_COUNT)
        invariant forall i :: 0 <= i < used - 1 ==> !Taken(draws[i], n, U64_COUNT)
        decreases |draws| - used
      {
        if used == |draws| {
          return None;
        }
        m := draws[used] * n;
        low := m % U64_COUNT;
        used := used + 1;
      }
    }
    HighBelow(draws[used - 1], n, U64_COUNT);
    return Some((m / U64_COUNT, used));
  }

  lemma ThresholdSmall(n: nat, words: nat)
    requires 0 < n <= words
    ensures Threshold(n, words) < n
  {
  }

  lemma HighBelow(x: nat, n: nat, words: nat)
    requires x < words && 0 < n
    ensures High(x, n, words) < n
  {
    var h := x * n / words;
    ProductOrder(x, words - 1, n);
    QuotientIs(x * n, words, h);
    if n <= h {
      ProductOrder(n, h, words);
    }
  }

  /** The draws that are taken and yield `r`. */
  function Yielding(n: nat, words: nat, r: nat): set<nat>
    requires 0 < n <= words
  {
    set x | 0 <= x < words && Taken(x, n, words) && High(x, n, words) == r
  }

  lemma ProductOrder(a: int, b: int, n: nat)
    requires a <= b
    ensures a * n <= b * n
  {
  }

  lemma QuotientIs(x: nat, words: nat, r: nat)
    requires words > 0
    ensures x / words == r <==> r * words <= x < (r + 1) * words
    ensures x / words == r ==> x % words == x - r * words
  {
    assert x == words * (x / words) + x % words;
    if x / words < r {
      ProductOrder(x / words + 1, r, words);
    } else if x / words > r {
      ProductOrder(r + 1, x / words, words);
    }
  }

  /** Multiples of `n` in a half-open range as long as `q` of them: exactly `q` consecutive ones. */
  lemma MultiplesInRange(n: nat, start: nat, q: nat, a: nat, x: nat)
    requires n > 0 && a * n >= start && (a as int - 1) * n < start
    ensures start <= x * n < start + q * n <==> a <= x < a + q
  {
    if x < a {
      ProductOrder(x, a - 1, n);
    } else {
      ProductOrder(a, x, n);
      if x < a + q {
        ProductOrder(x, a + q - 1, n);
        assert (a + q - 1) * n == (a - 1) * n + q * n;
      } else {
        ProductOrder(a + q, x, n);
        assert (a + q) * n == a * n + q * n;
      }
    }
  }

  function Interval(a: nat, q: nat): (r: set<nat>)
    ensures |r| == q && forall x :: x in r <==> a <= x < a + q
  {
    if q == 0 then {} else Interval(a, q - 1) + {a + q - 1}
  }

  lemma ThresholdIsRemainder(n: nat, words: nat)
    requires 0 < n <= words
    ensures words == Threshold(n, words) + words / n * n
  {
    assert words - n == n * ((words - n) / n) + (words - n) % n;
    QuotientIs(words, n, (words - n) / n + 1);
  }

  lemma TakenYields(n: nat, words: nat, r: nat, x: nat)
    requires 0 < n <= words && r < n
    ensures x in Yielding(n, words, r) <==>
      r * words + Threshold(n, words) <= x * n < r * words + Threshold(n, words) + words / n * n
  {
    ThresholdIsRemainder(n, words);
    QuotientIs(x * n, words, r);
    assert (r + 1) * words == r * words + words;
    if x >= words && x * n < (r + 1) * words {
      ProductOrder(r + 1, n, words);
      ProductOrder(words, x, n);
    }
  }

  lemma FirstMultiple(start: nat, n: nat) returns (a: nat)
    requires n > 0
    ensures a * n >= start && (a as int - 1) * n < start
  {
    if start == 0 {
      a := 0;
    } else {
      a := (start - 1) / n + 1;
      QuotientIs(start - 1, n, (start - 1) / n);
    }
  }

  /** No result is favoured: each of the `n` results has exactly ⌊words / n⌋ draws that are taken for it. */
  lemma BelowIsUniform(n: nat, words: nat, r: nat)
    requires 0 < n <= words && r < n
    ensures |Yielding(n, words, r)| == words / n
  {
    var q := words / n;
    var start := r * words + Threshold(n, words);
    var a := FirstMultiple(start, n);
    forall x: nat ensures x in Yielding(n, words, r) <==> x in Interval(a, q) {
      TakenYields(n, words, r, x);
      MultiplesInRange(n, start, q, a, x);
    }
    assert Yielding(n, words, r) == Interval(a, q);
  }

  // ---------------------------------------------------------------- random maps

  ghost predicate AllApart(leaves: seq<Path>) {
    forall i, j :: 0 <= i < j < |leaves| ==> Apart(leaves[i], leaves[j])
  }

  /** The ranges do not overlap and leave no long enough address out. */
  ghost predicate Partition(leaves: seq<Path>, width: nat) {
    && AllApart(leaves)
    && (forall p :: p in leaves ==> |p| <= width)
    && (forall path: Path :: |path| >= width ==> exists p :: p in leaves && p <= path)
  }

  /** Splitting a picked range in two: the last range takes its place, and its halves go to the end. */
  function Split(leaves: seq<Path>, pick: nat): seq<Path>
    requires pick < |leaves|
  {
    var leaf := leaves[pick];
    var last := leaves[|leaves| - 1];
    var rest := leaves[..|leaves| - 1];
    (if pick < |rest| then rest[pick := last] else rest) + [leaf + [false], leaf + [true]]
  }

  /** The ranges after all picks, starting from the whole space. */
  function Grown(picks: seq<nat>): (r: seq<Path>)
    requires forall i :: 0 <= i < |picks| ==> picks[i] <= i
    ensures |r| == |picks| + 1
  {
    if picks == [] then [[]] else Split(Grown(picks[..|picks| - 1]), picks[|picks| - 1])
  }

  lemma Comparable(p: Path, q: Path, path: Path)
    requires p <= path && q <= path
    ensures p <= q || q <= p
  {
    assert p == path[..|p|] && q == path[..|q|];
  }

  lemma HalvesApart(leaf: Path, other: Path, bit: bool)
    requires Apart(leaf, other)
    ensures Apart(leaf + [bit], other) && Apart(other, leaf + [bit])
  {
    var half := leaf + [bit];
    assert leaf <= half;
    if other <= half {
      Comparable(leaf, other, half);
    }
  }

  lemma SplitMembers(leaves: seq<Path>, pick: nat, p: Path)
    requires pick < |leaves| && AllApart(leaves)
    ensures p in Split(leaves, pick) <==>
      (p in leaves && p != leaves[pick]) || p == leaves[pick] + [false] || p == leaves[pick] + [true]
  {
    var rest := leaves[..|leaves| - 1];
    assert leaves == rest + [leaves[|leaves| - 1]];
    var kept := if pick < |rest| then rest[pick := leaves[|leaves| - 1]] else rest;
    assert p in kept ==> p in leaves && p != leaves[pick];
    if p in leaves && p != leaves[pick] {
      var i :| 0 <= i < |leaves| && leaves[i] == p;
      assert kept[if i == |rest| then pick else i] == p;
    }
  }

  lemma SplitApart(leaves: seq<Path>, pick: nat)
    requires pick < |leaves| && AllApart(leaves)
    ensures AllApart(Split(leaves, pick))
  {
    var leaf := leaves[pick];
    var rest := leaves[..|leaves| - 1];
    var kept := if pick < |rest| then rest[pick := leaves[|leaves| - 1]] else rest;
    forall i | 0 <= i < |kept|
      ensures Apart(kept[i], leaf + [false]) && Apart(kept[i], leaf + [true])
    {
      HalvesApart(leaf, kept[i], false);
      HalvesApart(leaf, kept[i], true);
    }
    assert (leaf + [false])[|leaf|] != (leaf + [true])[|leaf|];
    forall i, j | 0 <= i < j < |kept| ensures Apart(kept[i], kept[j]) {
      var i', j' := if i == pick then |rest| else i, if j == pick then |rest| else j;
      assert Apart(leaves[if i' < j' then i' else j'], leaves[if i' < j' then j' else i']);
    }
    assert Split(leaves, pick) == kept + [leaf + [false], leaf + [true]];
  }

  lemma StepPrefix(p: Path, path: Path)
    requires p <= path && |path| > |p|
    ensures p + [path[|p|]] <= path
  {
  }

  lemma SplitCovers(leaves: seq<Path>, pick: nat, path: Path, p: Path) returns (q: Path)
    requires pick < |leaves| && AllApart(leaves)
    requires p in leaves && p <= path && |path| > |p|
    ensures q in Split(leaves, pick) && q <= path
  {
    if p == leaves[pick] {
      var bit := path[|p|];
      q := p + [bit];
      StepPrefix(p, path);
      assert q == p + [false] || q == p + [true];
    } else {
      q := p;
    }
    SplitMembers(leaves, pick, q);
  }

  lemma SplitKeepsPartition(leaves: seq<Path>, pick: nat, width: nat)
    requires Partition(leaves, width) && pick < |leaves|
    ensures Partition(Split(leaves, pick), width + 1) && |Split(leaves, pick)| == |leaves| + 1
  {
    SplitApart(leaves, pick);
    forall p | p in Split(leaves, pick) ensures |p| <= width + 1 {
      SplitMembers(leaves, pick, p);
      assert leaves[pick] in leaves;
    }
    forall path: Path | |path| >= width + 1 ensures exists p :: p in Split(leaves, pick) && p <= path {
      var p :| p in leaves && p <= path;
      var q := SplitCovers(leaves, pick, path, p);
    }
  }

  lemma {:induction false} GrownPartition(picks: seq<nat>)
    requires forall i :: 0 <= i < |picks| ==> picks[i] <= i
    ensures Partition(Grown(picks), |picks|)
  {
    if picks == [] {
      assert [] in Grown(picks);
    } else {
      GrownPartition(picks[..|picks| - 1]);
      SplitKeepsPartition(Grown(picks[..|picks| - 1]), picks[|picks| - 1], |picks| - 1);
    }
  }

  /** The loop's body: take the last range off, let it fill the gap, add the two halves. */
  method SplitLeaf(leaves: seq<Path>, pick: nat) returns (r: seq<Path>)
    requires pick < |leaves|
    ensures r == Split(leaves, pick)
  {
    var leaf := leaves[pick];
    var last := leaves[|leaves| - 1];
    r := leaves[..|leaves| - 1];
    if pick < |r| {
      r := r[pick := last];
    }
    r := r + [leaf + [false], leaf + [true]];
  }

  /** A random map: picked ranges are split, then every range gets its drawn ASN. */
  method RandomMap(picks: seq<nat>, asns: seq<nat>) returns (t: Trie, ghost leaves: seq<Path>)
    requires |asns| == |picks| + 1 && forall i :: 0 <= i < |picks| ==> picks[i] <= i
    ensures leaves == Grown(picks) && Partition(leaves, |picks|) && |leaves| == |asns| && Canonical(t)
    ensures forall i, path: Path :: 0 <= i < |leaves| && leaves[i] <= path ==> Lookup(t, path) == Some(asns[i])
  {
    var grown: seq<Path> := [[]];
    var i := 0;
    while i < |picks|
      invariant 0 <= i <= |picks| && grown == Grown(picks[..i])
    {
      assert picks[..i + 1][..i] == picks[..i];
      grown := SplitLeaf(grown, picks[i]);
      i := i + 1;
    }
    assert picks[..i] == picks;
    GrownPartition(picks);
    leaves := grown;
    var state := new ASMap();
    state.UpdateMulti(Assigned(grown, asns));
    t := state.trie;
    UpdateCanonical(Leaf(0), Assigned(grown, asns));
    AssignedAnswers(leaves, asns);
  }

  function Assigned(leaves: seq<Path>, asns: seq<nat>): (es: seq<Entry>)
    requires |leaves| == |asns|
    ensures |es| == |leaves| && forall k :: 0 <= k < |es| ==> es[k] == Entry(leaves[k], asns[k])
  {
    seq(|leaves|, k requires 0 <= k < |leaves| && |leaves| == |asns| => Entry(leaves[k], asns[k]))
  }

  lemma AssignedAnswers(leaves: seq<Path>, asns: seq<nat>)
    requires |leaves| == |asns| && AllApart(leaves)
    ensures forall k, path: Path :: 0 <= k < |leaves| && leaves[k] <= path ==>
              Lookup(UpdateAll(Leaf(0), Assigned(leaves, asns)), path) == Some(asns[k])
  {
    var es := Assigned(leaves, asns);
    assert PairwiseApart(es);
    forall k, path: Path | 0 <= k < |leaves| && leaves[k] <= path
      ensures Lookup(UpdateAll(Leaf(0), es), path) == Some(asns[k])
    {
      LeafAnswers(es, k, path);
    }
  }

  lemma LeafAnswers(entries: seq<Entry>, k: nat, path: Path)
    requires k < |entries| && PairwiseApart(entries) && entries[k].prefix <= path
    ensures Lookup(UpdateAll(Leaf(0), entries), path) == Some(entries[k].asn)
  {
    forall j | 0 <= j < |entries| && j != k ensures !(entries[j].prefix <= path) && !(path <= entries[j].prefix) {
      if j < k {
        assert Apart(entries[j].prefix, entries[k].prefix);
      } else {
        assert Apart(entries[k].prefix, entries[j].prefix);
      }
      Nested(entries[j].prefix, entries[k].prefix, path);
    }
    assert Winner(entries, path, k);
    UpdateIsLongestPrefixMatch(Leaf(0), entries, path);
  }

  lemma Nested(p: Path, q: Path, path: Path)
    requires q <= path && Apart(p, q)
    ensures !(p <= path) && !(path <= p)
  {
    if p <= path {
      Comparable(p, q, path);
    }
  }
}
