/**
 * The dynamic program both compilers of the trie share. A table holds, per
 * context, the best description of a subtree: context Some(k) means "the range
 * already maps to k", None means "whatever it maps to". One step combines the
 * tables of two halves; the two compilers differ only in what a description
 * is, given by an algebra.
 */
module Contexts {
  import opened Wrappers
  import opened Ordering
  import opened Tries

  type Context = Option<nat>
  type Table<X> = map<Context, X>

  /** How descriptions start, combine (two halves, under an explicit ASN) and cost. */
  datatype Algebra<!X> = Algebra(
    nothing: X, leaf: nat -> X, join: (X, X) -> X, cover: (nat, X) -> X, size: X -> nat)

  function Get<X>(t: Table<X>, c: Context): Option<X> {
    if c in t then Some(t[c]) else None
  }

  /** Keeps the old description unless the new one is strictly smaller. */
  function Smaller<X>(alg: Algebra<X>, prior: Option<X>, cand: X): Option<X> {
    if prior.None? || alg.size(cand) < alg.size(prior.value) then Some(cand) else prior
  }

  function Offer<X>(alg: Algebra<X>, prior: Option<X>, a: Option<X>, b: Option<X>): Option<X> {
    if a.Some? && b.Some? then Smaller(alg, prior, alg.join(a.value, b.value)) else prior
  }

  function JoinOf<X>(alg: Algebra<X>, a: Option<X>, b: Option<X>): Option<X> {
    if a.Some? && b.Some? then Some(alg.join(a.value, b.value)) else None
  }

  /** The three ways of describing a node in context `c` by its halves. */
  function BestJoin<X>(alg: Algebra<X>, l: Table<X>, r: Table<X>, c: Context): Option<X> {
    var both := Offer(alg, None, Get(l, c), Get(r, c));
    var left := Offer(alg, both, Get(l, None), Get(r, c));
    Offer(alg, left, Get(l, c), Get(r, None))
  }

  function Joined<X>(alg: Algebra<X>, l: Table<X>, r: Table<X>): Table<X> {
    map c | c in l.Keys + r.Keys && BestJoin(alg, l, r, c).Some? :: BestJoin(alg, l, r, c).value
  }

  function Asns<X>(t: Table<X>): (r: set<nat>)
    ensures forall k :: k in r <==> Some(k) in t
  {
    assert forall k: nat :: Some(k) in t ==> Some(k) in t.Keys && Some(k).value == k;
    set c | c in t.Keys && c.Some? :: c.value
  }

  predicate NatLe(m: nat, n: nat) {
    m <= n
  }

  /** The best description for any context among `best` and the covered contexts `ks`. */
  function BestCover<X>(alg: Algebra<X>, t: Table<X>, ks: seq<nat>, best: Option<X>): Option<X> {
    if ks == [] then best
    else
      var k, rest := ks[|ks| - 1], BestCover(alg, t, ks[..|ks| - 1], best);
      if Some(k) in t then Smaller(alg, rest, alg.cover(k, t[Some(k)])) else rest
  }

  function WithAny<X>(t: Table<X>, best: Option<X>): Table<X> {
    if best.Some? then t[None := best.value] else t
  }

  ghost function Covered<X(!new)>(alg: Algebra<X>, t: Table<X>): Table<X> {
    CoveredBy(alg, t, Sorted(NatLe, Asns(t)))
  }

  function CoveredBy<X>(alg: Algebra<X>, t: Table<X>, ks: seq<nat>): Table<X> {
    WithAny(t, BestCover(alg, t, ks, Get(t, None)))
  }

  /** Drops contexts that cost no less than the description for any context. */
  function Pruned<X>(alg: Algebra<X>, t: Table<X>): Table<X> {
    if None in t then map c | c in t && (c.None? || alg.size(t[c]) < alg.size(t[None])) :: t[c] else t
  }

  /** A subtree with a hole can only stand where nothing is assigned. */
  function Confined<X>(t: Table<X>, hole: bool): Table<X> {
    if hole then map c | c in t && (c.None? || c == Some(0)) :: t[c] else t
  }

  /** The table of a branch, from the tables of its halves. */
  ghost function JoinStep<X(!new)>(alg: Algebra<X>, l: Table<X>, r: Table<X>, hole: bool): Table<X> {
    var joined := Joined(alg, l, r);
    Confined(Pruned(alg, if hole then joined else Covered(alg, joined)), hole)
  }

  // ---------------------------------------------------------------- where descriptions come from

  ghost predicate FromHalves<X>(alg: Algebra<X>, l: Table<X>, r: Table<X>, c: Context, x: X) {
    || (c in l && c in r && x == alg.join(l[c], r[c]))
    || (None in l && c in r && x == alg.join(l[None], r[c]))
    || (c in l && None in r && x == alg.join(l[c], r[None]))
  }

  ghost predicate FromCover<X(!new)>(alg: Algebra<X>, t: Table<X>, x: X) {
    exists k :: Some(k) in t && x == alg.cover(k, t[Some(k)])
  }

  lemma {:induction false} BestCoverOrigin<X(!new)>(alg: Algebra<X>, t: Table<X>, ks: seq<nat>, best: Option<X>)
    ensures var b := BestCover(alg, t, ks, best);
      && (b.Some? ==> b == best || FromCover(alg, t, b.value))
      && (best.Some? ==> b.Some? && alg.size(b.value) <= alg.size(best.value))
  {
    if ks != [] {
      BestCoverOrigin(alg, t, ks[..|ks| - 1], best);
    }
  }

  lemma {:induction false} BestCoverLeast<X(!new)>(alg: Algebra<X>, t: Table<X>, ks: seq<nat>, best: Option<X>, k: nat)
    requires k in ks && Some(k) in t
    ensures var b := BestCover(alg, t, ks, best);
      b.Some? && alg.size(b.value) <= alg.size(alg.cover(k, t[Some(k)]))
  {
    var init := ks[..|ks| - 1];
    assert ks == init + [ks[|ks| - 1]];
    if k != ks[|ks| - 1] {
      BestCoverLeast(alg, t, init, best, k);
    }
  }

  lemma CoveredSound<X(!new)>(alg: Algebra<X>, t: Table<X>)
    ensures var d := Covered(alg, t);
      && d.Keys <= t.Keys + {None} && t.Keys <= d.Keys
      && (forall k :: Some(k) in t ==> d[Some(k)] == t[Some(k)])
      && (None in d ==> (None in t && d[None] == t[None]) || FromCover(alg, t, d[None]))
      && (None in t ==> alg.size(d[None]) <= alg.size(t[None]))
      && (forall k :: Some(k) in t ==> None in d && alg.size(d[None]) <= alg.size(alg.cover(k, t[Some(k)])))
  {
    var ks := Sorted(NatLe, Asns(t));
    BestCoverOrigin(alg, t, ks, Get(t, None));
    forall k | Some(k) in t
      ensures None in Covered(alg, t) && alg.size(Covered(alg, t)[None]) <= alg.size(alg.cover(k, t[Some(k)]))
    {
      BestCoverLeast(alg, t, ks, Get(t, None), k);
    }
  }

  /** A cover of a join for some explicit context. */
  ghost predicate FromCoveredHalves<X(!new)>(alg: Algebra<X>, l: Table<X>, r: Table<X>, x: X) {
    exists k, y :: FromHalves(alg, l, r, Some(k), y) && x == alg.cover(k, y)
  }

  /** Every entry of a step is a join of two entries of the halves, or a covered such join. */
  lemma StepProvenance<X(!new)>(alg: Algebra<X>, l: Table<X>, r: Table<X>, hole: bool, c: Context)
    requires c in JoinStep(alg, l, r, hole)
    ensures FromHalves(alg, l, r, c, JoinStep(alg, l, r, hole)[c]) ||
            (c.None? && !hole && FromCoveredHalves(alg, l, r, JoinStep(alg, l, r, hole)[c]))
  {
    var joined := Joined(alg, l, r);
    var x := JoinStep(alg, l, r, hole)[c];
    CoveredSound(alg, joined);
    if c in joined && x == joined[c] {
      JoinedOrigin(alg, l, r, c);
    } else {
      assert !hole && c.None? && FromCover(alg, joined, x);
      var k :| Some(k) in joined && x == alg.cover(k, joined[Some(k)]);
      JoinedOrigin(alg, l, r, Some(k));
    }
  }

  lemma JoinedOrigin<X>(alg: Algebra<X>, l: Table<X>, r: Table<X>, c: Context)
    requires c in Joined(alg, l, r)
    ensures FromHalves(alg, l, r, c, Joined(alg, l, r)[c])
  {
  }

  // ---------------------------------------------------------------- nothing cheaper is missed

  /** Contexts under which an entry may stand where the range maps to `c`. */
  predicate Fits(c: Context, inner: Context) {
    inner == c || inner.None?
  }

  /** Some entry usable in context `c` has at most the given size. */
  ghost predicate Affords<X(!new)>(alg: Algebra<X>, t: Table<X>, c: Context, size: nat) {
    exists d :: Fits(c, d) && d in t && alg.size(t[d]) <= size
  }

  lemma JoinedBest<X(!new)>(alg: Algebra<X>, l: Table<X>, r: Table<X>, c: Context, cl: Context, cr: Context)
    requires Fits(c, cl) && Fits(c, cr) && cl in l && cr in r
    ensures Affords(alg, Joined(alg, l, r), c, alg.size(alg.join(l[cl], r[cr])))
  {
    var d := if cl.None? && cr.None? then None else c;
    assert d in l.Keys + r.Keys && Fits(c, d) && d in Joined(alg, l, r);
  }

  /** Some entry usable in context `c` is at most as large as any join of usable halves. */
  lemma StepBest<X(!new)>(alg: Algebra<X>, l: Table<X>, r: Table<X>, hole: bool, c: Context, cl: Context, cr: Context)
    requires Fits(c, cl) && Fits(c, cr) && cl in l && cr in r
    requires hole ==> Fits(Some(0), c)
    ensures Affords(alg, JoinStep(alg, l, r, hole), c, alg.size(alg.join(l[cl], r[cr])))
  {
    var joined := Joined(alg, l, r);
    JoinedBest(alg, l, r, c, cl, cr);
    var d :| Fits(c, d) && d in joined && alg.size(joined[d]) <= alg.size(alg.join(l[cl], r[cr]));
    CoveredSound(alg, joined);
    var t := if hole then joined else Covered(alg, joined);
    assert d in t && alg.size(t[d]) <= alg.size(joined[d]);
    if None in t && d.Some? && alg.size(t[None]) <= alg.size(t[d]) {
      assert Fits(c, None) && None in JoinStep(alg, l, r, hole);
    } else {
      assert d in Pruned(alg, t);
      assert d in JoinStep(alg, l, r, hole);
    }
  }

  /** Where a cover costs one, the any-context entry is at most one above any join under one ASN. */
  lemma StepBestCover<X(!new)>(alg: Algebra<X>, l: Table<X>, r: Table<X>, k: nat, cl: Context, cr: Context)
    requires Fits(Some(k), cl) && Fits(Some(k), cr) && cl in l && cr in r
    requires forall j, x :: alg.size(alg.cover(j, x)) <= 1 + alg.size(x)
    ensures None in JoinStep(alg, l, r, false)
    ensures alg.size(JoinStep(alg, l, r, false)[None]) <= 1 + alg.size(alg.join(l[cl], r[cr]))
  {
    var joined := Joined(alg, l, r);
    JoinedBest(alg, l, r, Some(k), cl, cr);
    var d :| Fits(Some(k), d) && d in joined && alg.size(joined[d]) <= alg.size(alg.join(l[cl], r[cr]));
    CoveredSound(alg, joined);
    if d.Some? {
      assert alg.size(Covered(alg, joined)[None]) <= alg.size(alg.cover(k, joined[d]));
    }
  }

  // ---------------------------------------------------------------- which of the cheapest is kept

  /** `x` is the first of the cheapest candidates; None stands for a candidate that is not there. */
  ghost predicate FirstCheapest<X(!new)>(alg: Algebra<X>, cands: seq<Option<X>>, i: nat, x: X) {
    && i < |cands| && cands[i] == Some(x)
    && (forall j :: 0 <= j < i && cands[j].Some? ==> alg.size(cands[j].value) > alg.size(x))
    && (forall j :: i <= j < |cands| && cands[j].Some? ==> alg.size(cands[j].value) >= alg.size(x))
  }

  lemma OneMoreCandidate<X(!new)>(alg: Algebra<X>, cands: seq<Option<X>>, i: nat, x: X, cand: X) returns (k: nat)
    requires FirstCheapest(alg, cands, i, x)
    ensures FirstCheapest(alg, cands + [Some(cand)], k, Smaller(alg, Some(x), cand).value)
  {
    k := if alg.size(cand) < alg.size(x) then |cands| else i;
  }

  /** The description for any context, then the cover for every context of the list that is there. */
  function Offered<X>(alg: Algebra<X>, t: Table<X>, ks: seq<nat>): (r: seq<Option<X>>)
    ensures |r| == 1 + |ks|
  {
    [Get(t, None)] + seq(|ks|, i requires 0 <= i < |ks| =>
      if Some(ks[i]) in t then Some(alg.cover(ks[i], t[Some(ks[i])])) else None)
  }

  lemma {:induction false} BestCoverIsFirst<X(!new)>(alg: Algebra<X>, t: Table<X>, ks: seq<nat>)
    ensures var b := BestCover(alg, t, ks, Get(t, None));
      if b.Some? then exists i :: FirstCheapest(alg, Offered(alg, t, ks), i, b.value)
      else forall i :: 0 <= i <= |ks| ==> Offered(alg, t, ks)[i].None?
  {
    if ks == [] {
      if None in t {
        assert FirstCheapest(alg, Offered(alg, t, ks), 0, t[None]);
      }
    } else {
      var n := |ks| - 1;
      var k, front := ks[n], ks[..n];
      var prior, last := BestCover(alg, t, front, Get(t, None)), Offered(alg, t, ks)[n + 1];
      BestCoverIsFirst(alg, t, front);
      assert Offered(alg, t, ks) == Offered(alg, t, front) + [last];
      if prior.Some? {
        var i :| FirstCheapest(alg, Offered(alg, t, front), i, prior.value);
        if last.Some? {
          var j := OneMoreCandidate(alg, Offered(alg, t, front), i, prior.value, last.value);
        } else {
          assert FirstCheapest(alg, Offered(alg, t, ks), i, prior.value);
        }
      } else if last.Some? {
        assert FirstCheapest(alg, Offered(alg, t, ks), n + 1, last.value);
      }
    }
  }

  /** No default is cheaper than `x`, and none of a smaller ASN than `k` is as cheap. */
  ghost predicate CheapestDefault<X(!new)>(alg: Algebra<X>, t: Table<X>, k: Context, x: X) {
    && (None in t ==> alg.size(t[None]) >= alg.size(x) && (k.Some? ==> alg.size(t[None]) > alg.size(x)))
    && (forall j :: Some(j) in t ==> alg.size(alg.cover(j, t[Some(j)])) >= alg.size(x))
    && (forall j :: Some(j) in t && k.Some? && j < k.value ==> alg.size(alg.cover(j, t[Some(j)])) > alg.size(x))
  }

  /** The explicit contexts of the table, ascending. */
  ghost predicate ListsAsns<X>(t: Table<X>, ks: seq<nat>) {
    (forall k :: k in ks <==> Some(k) in t) && forall i, j :: 0 <= i < j < |ks| ==> ks[i] < ks[j]
  }

  lemma SortedListsAsns<X>(t: Table<X>)
    ensures ListsAsns(t, Sorted(NatLe, Asns(t)))
  {
    var ks := Sorted(NatLe, Asns(t));
    forall i, j | 0 <= i < j < |ks| ensures ks[i] < ks[j] {
      assert NatLe(ks[i], ks[j]);
    }
  }

  lemma DefaultAt<X>(alg: Algebra<X>, t: Table<X>, ks: seq<nat>, j: nat) returns (m: nat)
    requires ListsAsns(t, ks) && Some(j) in t
    ensures m < |ks| && ks[m] == j && Offered(alg, t, ks)[m + 1] == Some(alg.cover(j, t[Some(j)]))
  {
    m :| 0 <= m < |ks| && ks[m] == j;
  }

  lemma FirstIsSmallest<X(!new)>(alg: Algebra<X>, t: Table<X>, ks: seq<nat>, i: nat, x: X)
    requires ListsAsns(t, ks) && FirstCheapest(alg, Offered(alg, t, ks), i, x)
    ensures CheapestDefault(alg, t, if i == 0 then None else Some(ks[i - 1]), x)
  {
    var cands := Offered(alg, t, ks);
    assert cands[0] == Get(t, None);
    forall j | Some(j) in t
      ensures alg.size(alg.cover(j, t[Some(j)])) >= alg.size(x)
      ensures i > 0 && j < ks[i - 1] ==> alg.size(alg.cover(j, t[Some(j)])) > alg.size(x)
    {
      var m := DefaultAt(alg, t, ks, j);
      assert cands[m + 1].Some?;
    }
  }

  lemma SomeCandidate<X(!new)>(alg: Algebra<X>, t: Table<X>, ks: seq<nat>) returns (i: nat)
    requires t != map[] && ListsAsns(t, ks)
    ensures i <= |ks| && Offered(alg, t, ks)[i].Some?
  {
    var c :| c in t;
    if c.None? {
      i := 0;
    } else {
      var m := DefaultAt(alg, t, ks, c.value);
      i := m + 1;
    }
  }

  lemma CoverSource<X(!new)>(alg: Algebra<X>, t: Table<X>, ks: seq<nat>, i: nat, x: X)
    requires FirstCheapest(alg, Offered(alg, t, ks), i, x)
    ensures if i == 0 then None in t && x == t[None]
            else Some(ks[i - 1]) in t && x == alg.cover(ks[i - 1], t[Some(ks[i - 1])])
  {
    assert Offered(alg, t, ks)[0] == Get(t, None);
  }

  /**
   * Ties among defaults: a branch keeps its own description for any context unless a
   * default is strictly cheaper, and of the cheapest defaults takes the smallest ASN's.
   */
  lemma SmallestDefaultWins<X(!new)>(alg: Algebra<X>, t: Table<X>) returns (k: Context)
    requires t != map[]
    ensures k in t && None in Covered(alg, t)
    ensures Covered(alg, t)[None] == (if k.Some? then alg.cover(k.value, t[k]) else t[None])
    ensures CheapestDefault(alg, t, k, Covered(alg, t)[None])
  {
    var ks := Sorted(NatLe, Asns(t));
    SortedListsAsns(t);
    k := SmallestCover(alg, t, ks);
  }

  lemma SmallestCover<X(!new)>(alg: Algebra<X>, t: Table<X>, ks: seq<nat>) returns (k: Context)
    requires t != map[] && ListsAsns(t, ks)
    ensures k in t && None in CoveredBy(alg, t, ks)
    ensures CoveredBy(alg, t, ks)[None] == (if k.Some? then alg.cover(k.value, t[k]) else t[None])
    ensures CheapestDefault(alg, t, k, CoveredBy(alg, t, ks)[None])
  {
    var best := BestCover(alg, t, ks, Get(t, None));
    BestCoverIsFirst(alg, t, ks);
    var some := SomeCandidate(alg, t, ks);
    var i :| FirstCheapest(alg, Offered(alg, t, ks), i, best.value);
    FirstIsSmallest(alg, t, ks, i, best.value);
    CoverSource(alg, t, ks, i, best.value);
    k := if i == 0 then None else Some(ks[i - 1]);
  }

  /** Ties among joins: both halves in the context, then the left for any, then the right for any. */
  lemma FirstJoinWins<X(!new)>(alg: Algebra<X>, l: Table<X>, r: Table<X>, c: Context)
    ensures var cands := [JoinOf(alg, Get(l, c), Get(r, c)), JoinOf(alg, Get(l, None), Get(r, c)),
                          JoinOf(alg, Get(l, c), Get(r, None))];
      if BestJoin(alg, l, r, c).Some? then exists i :: FirstCheapest(alg, cands, i, BestJoin(alg, l, r, c).value)
      else forall i :: 0 <= i < 3 ==> cands[i].None?
  {
    var cands := [JoinOf(alg, Get(l, c), Get(r, c)), JoinOf(alg, Get(l, None), Get(r, c)),
                  JoinOf(alg, Get(l, c), Get(r, None))];
    if BestJoin(alg, l, r, c).Some? {
      var x := BestJoin(alg, l, r, c).value;
      assert FirstCheapest(alg, cands, 0, x) || FirstCheapest(alg, cands, 1, x) || FirstCheapest(alg, cands, 2, x);
    }
  }

  // ---------------------------------------------------------------- which contexts exist

  /**
   * A subtree with a hole is described in the unassigned context alone; any
   * other subtree for every context at once, and never for context 0 alone.
   */
  ghost predicate Shaped<X>(t: Table<X>, hole: bool) {
    if hole then t.Keys == {Some(0)} else None in t && Some(0) !in t
  }

  /** An explicit context of two hole-free halves is an assigned ASN. */
  lemma CoversAreAssigned<X(!new)>(alg: Algebra<X>, l: Table<X>, r: Table<X>, k: nat, y: X)
    requires Shaped(l, false) && Shaped(r, false) && FromHalves(alg, l, r, Some(k), y)
    ensures k > 0
  {
    assert Some(k) in l || Some(k) in r;
  }

  lemma StepShaped<X(!new)>(alg: Algebra<X>, l: Table<X>, r: Table<X>, lhole: bool, rhole: bool)
    requires Shaped(l, lhole) && Shaped(r, rhole)
    ensures Shaped(JoinStep(alg, l, r, lhole || rhole), lhole || rhole)
  {
    var joined := Joined(alg, l, r);
    if lhole || rhole {
      assert None !in joined by {
        assert BestJoin(alg, l, r, None).None?;
      }
      assert Some(0) in joined by {
        assert BestJoin(alg, l, r, Some(0)).Some?;
      }
      assert Pruned(alg, joined) == joined;
      assert Confined(joined, true).Keys == {Some(0)};
    } else {
      assert None in joined && Some(0) !in joined by {
        assert BestJoin(alg, l, r, None).Some?;
        assert Some(0) !in l.Keys + r.Keys;
      }
      CoveredSound(alg, joined);
    }
  }

  // ---------------------------------------------------------------- the table of a whole trie

  /** The table of a leaf: unassigned space needs nothing, an ASN needs nothing where it already holds. */
  function LeafTable<X>(alg: Algebra<X>, v: nat, fill: bool): Table<X> {
    if v == 0 then map[if fill then None else Some(0) := alg.nothing]
    else map[Some(v) := alg.nothing, None := alg.leaf(v)]
  }

  /** The table of a subtree, and whether it holds unassigned space. */
  ghost function Tabulate<X(!new)>(alg: Algebra<X>, t: Trie, fill: bool): (Table<X>, bool) {
    match t
    case Leaf(v) => (LeafTable(alg, v, fill), v == 0)
    case Branch(l, r) =>
      var (lt, lhole) := Tabulate(alg, l, fill);
      var (rt, rhole) := Tabulate(alg, r, fill);
      var hole := !fill && (lhole || rhole);
      (JoinStep(alg, lt, rt, hole), hole)
  }

  /** A hole only matters when it may not be filled. */
  ghost predicate Hole(t: Trie, fill: bool) {
    !fill && HasAsn(t, 0)
  }

  lemma {:induction false} TabulateShaped<X(!new)>(alg: Algebra<X>, t: Trie, fill: bool)
    ensures Shaped(Tabulate(alg, t, fill).0, Hole(t, fill))
    ensures !fill ==> Tabulate(alg, t, fill).1 == HasAsn(t, 0)
  {
    if t.Branch? {
      TabulateShaped(alg, t.left, fill);
      TabulateShaped(alg, t.right, fill);
      StepShaped(alg, Tabulate(alg, t.left, fill).0, Tabulate(alg, t.right, fill).0,
                 Hole(t.left, fill), Hole(t.right, fill));
    }
  }

  /** An explicit context stays only where it is strictly cheaper than the description for any. */
  ghost predicate Strict<X(!new)>(alg: Algebra<X>, t: Table<X>) {
    forall k :: Some(k) in t && None in t ==> alg.size(t[Some(k)]) < alg.size(t[None])
  }

  lemma StepStrict<X(!new)>(alg: Algebra<X>, l: Table<X>, r: Table<X>, hole: bool)
    ensures Strict(alg, JoinStep(alg, l, r, hole))
  {
    var joined := Joined(alg, l, r);
    var t := if hole then joined else Covered(alg, joined);
    assert Strict(alg, Pruned(alg, t));
  }

  lemma TableStrict<X(!new)>(alg: Algebra<X>, t: Trie, fill: bool)
    requires forall v :: alg.size(alg.nothing) < alg.size(alg.leaf(v))
    ensures Strict(alg, Tabulate(alg, t, fill).0)
  {
    if t.Branch? {
      TableOfBranch(alg, t, fill);
      StepStrict(alg, Tabulate(alg, t.left, fill).0, Tabulate(alg, t.right, fill).0, Hole(t, fill));
    }
  }

  lemma TableOfBranch<X(!new)>(alg: Algebra<X>, t: Trie, fill: bool)
    requires t.Branch?
    ensures Tabulate(alg, t, fill).0 ==
            JoinStep(alg, Tabulate(alg, t.left, fill).0, Tabulate(alg, t.right, fill).0, Hole(t, fill))
  {
    TabulateShaped(alg, t.left, fill);
    TabulateShaped(alg, t.right, fill);
  }

  /** The description used at the top, where the whole space starts unassigned. */
  ghost function Best<X(!new)>(alg: Algebra<X>, t: Trie, fill: bool): X {
    var (table, _) := Tabulate(alg, t, fill);
    if Some(0) in table then table[Some(0)] else if None in table then table[None] else alg.nothing
  }

  /** The top level always finds a description, and only one of its two contexts can hold it. */
  lemma BestFound<X(!new)>(alg: Algebra<X>, t: Trie, fill: bool)
    ensures var table := Tabulate(alg, t, fill).0;
      var c := if Hole(t, fill) then Some(0) else None;
      Fits(Some(0), c) && c in table && Best(alg, t, fill) == table[c] &&
      forall d :: Fits(Some(0), d) && d in table ==> d == c
  {
    TabulateShaped(alg, t, fill);
  }

  // ---------------------------------------------------------------- changing what a description is

  /** The table with every description rewritten. */
  function Mapped<X, Y>(f: X -> Y, t: Table<X>): Table<Y> {
    map c | c in t :: f(t[c])
  }

  function MapOption<X, Y>(f: X -> Y, x: Option<X>): Option<Y> {
    if x.Some? then Some(f(x.value)) else None
  }

  /** `f` carries one algebra to another, when halves are rewritten by `fl` and `fr`. */
  ghost predicate Transports<X(!new), Y(!new)>(x: Algebra<X>, y: Algebra<Y>, f: X -> Y, fl: X -> Y, fr: X -> Y) {
    && (forall a, b :: f(x.join(a, b)) == y.join(fl(a), fr(b)))
    && (forall k, a :: f(x.cover(k, a)) == y.cover(k, f(a)))
    && (forall a :: x.size(a) == y.size(f(a)))
  }

  lemma MappedJoin<X(!new), Y(!new)>(x: Algebra<X>, y: Algebra<Y>, f: X -> Y, fl: X -> Y, fr: X -> Y,
                                     l: Table<X>, r: Table<X>)
    requires Transports(x, y, f, fl, fr)
    ensures Joined(y, Mapped(fl, l), Mapped(fr, r)) == Mapped(f, Joined(x, l, r))
  {
    forall c ensures BestJoin(y, Mapped(fl, l), Mapped(fr, r), c) == MapOption(f, BestJoin(x, l, r, c)) {
      MappedOffer(x, y, f, fl, fr, None, Get(l, c), Get(r, c));
      var both := Offer(x, None, Get(l, c), Get(r, c));
      MappedOffer(x, y, f, fl, fr, both, Get(l, None), Get(r, c));
      MappedOffer(x, y, f, fl, fr, Offer(x, both, Get(l, None), Get(r, c)), Get(l, c), Get(r, None));
      assert forall d :: Get(Mapped(fl, l), d) == MapOption(fl, Get(l, d));
      assert forall d :: Get(Mapped(fr, r), d) == MapOption(fr, Get(r, d));
    }
  }

  lemma MappedOffer<X(!new), Y(!new)>(x: Algebra<X>, y: Algebra<Y>, f: X -> Y, fl: X -> Y, fr: X -> Y,
                                      prior: Option<X>, a: Option<X>, b: Option<X>)
    requires Transports(x, y, f, fl, fr)
    ensures Offer(y, MapOption(f, prior), MapOption(fl, a), MapOption(fr, b)) == MapOption(f, Offer(x, prior, a, b))
  {
  }

  lemma {:induction false} MappedCover<X(!new), Y(!new)>(x: Algebra<X>, y: Algebra<Y>, f: X -> Y, fl: X -> Y, fr: X -> Y,
                                                         t: Table<X>, ks: seq<nat>, best: Option<X>)
    requires Transports(x, y, f, fl, fr)
    ensures BestCover(y, Mapped(f, t), ks, MapOption(f, best)) == MapOption(f, BestCover(x, t, ks, best))
  {
    if ks != [] {
      MappedCover(x, y, f, fl, fr, t, ks[..|ks| - 1], best);
    }
  }

  lemma MappedCovered<X(!new), Y(!new)>(x: Algebra<X>, y: Algebra<Y>, f: X -> Y, fl: X -> Y, fr: X -> Y, t: Table<X>)
    requires Transports(x, y, f, fl, fr)
    ensures Covered(y, Mapped(f, t)) == Mapped(f, Covered(x, t))
  {
    assert Asns(Mapped(f, t)) == Asns(t);
    MappedCoveredBy(x, y, f, fl, fr, t, Sorted(NatLe, Asns(t)));
  }

  lemma MappedCoveredBy<X(!new), Y(!new)>(x: Algebra<X>, y: Algebra<Y>, f: X -> Y, fl: X -> Y, fr: X -> Y,
                                          t: Table<X>, ks: seq<nat>)
    requires Transports(x, y, f, fl, fr)
    ensures CoveredBy(y, Mapped(f, t), ks) == Mapped(f, CoveredBy(x, t, ks))
  {
    MappedCover(x, y, f, fl, fr, t, ks, Get(t, None));
    assert Get(Mapped(f, t), None) == MapOption(f, Get(t, None));
    MappedAny(f, t, BestCover(x, t, ks, Get(t, None)));
  }

  lemma MappedAny<X(!new), Y(!new)>(f: X -> Y, t: Table<X>, best: Option<X>)
    ensures WithAny(Mapped(f, t), MapOption(f, best)) == Mapped(f, WithAny(t, best))
  {
  }

  lemma MappedPruned<X(!new), Y(!new)>(x: Algebra<X>, y: Algebra<Y>, f: X -> Y, fl: X -> Y, fr: X -> Y, t: Table<X>,
                                        hole: bool)
    requires Transports(x, y, f, fl, fr)
    ensures Confined(Pruned(y, Mapped(f, t)), hole) == Mapped(f, Confined(Pruned(x, t), hole))
  {
    assert Pruned(y, Mapped(f, t)) == Mapped(f, Pruned(x, t));
  }

  /** A step commutes with rewriting the descriptions. */
  lemma MappedStep<X(!new), Y(!new)>(x: Algebra<X>, y: Algebra<Y>, f: X -> Y, fl: X -> Y, fr: X -> Y,
                                     l: Table<X>, r: Table<X>, hole: bool)
    requires Transports(x, y, f, fl, fr)
    ensures JoinStep(y, Mapped(fl, l), Mapped(fr, r), hole) == Mapped(f, JoinStep(x, l, r, hole))
  {
    var joined := Joined(x, l, r);
    MappedJoin(x, y, f, fl, fr, l, r);
    MappedCovered(x, y, f, fl, fr, joined);
    MappedPruned(x, y, f, fl, fr, if hole then joined else Covered(x, joined), hole);
  }

  // ---------------------------------------------------------------- the candidate and default loops over local maps

  /** Records a description unless one at most as large is already there. */
  function Noted<X>(alg: Algebra<X>, t: Table<X>, c: Context, cand: Option<X>): Table<X> {
    if cand.None? then t
    else
      var best := Smaller(alg, Get(t, c), cand.value);
      t[c := best.value]
  }

  /** The candidate loop over local maps; the contexts are visited in no particular order. */
  method JoinTables<X(!new)>(alg: Algebra<X>, l: Table<X>, r: Table<X>) returns (ret: Table<X>)
    ensures ret == Joined(alg, l, r)
  {
    ret := map[];
    var todo := l.Keys + r.Keys;
    while todo != {}
      invariant todo <= l.Keys + r.Keys
      invariant forall c :: c in todo ==> c !in ret
      invariant forall c :: c in l.Keys + r.Keys && c !in todo ==> Get(ret, c) == BestJoin(alg, l, r, c)
      invariant ret.Keys <= l.Keys + r.Keys
    {
      var c :| c in todo;
      ghost var before := ret;
      ret := Noted(alg, ret, c, JoinOf(alg, Get(l, c), Get(r, c)));
      ret := Noted(alg, ret, c, JoinOf(alg, Get(l, None), Get(r, c)));
      ret := Noted(alg, ret, c, JoinOf(alg, Get(l, c), Get(r, None)));
      assert Get(ret, c) == BestJoin(alg, l, r, c);
      assert forall d :: d != c ==> Get(ret, d) == Get(before, d);
      todo := todo - {c};
    }
    assert forall c :: Get(ret, c) == Get(Joined(alg, l, r), c);
    SameTable(ret, Joined(alg, l, r));
  }

  lemma SameTable<X(!new)>(s: Table<X>, t: Table<X>)
    requires forall c :: Get(s, c) == Get(t, c)
    ensures s == t
  {
    assert forall c :: c in s <==> Get(s, c).Some?;
    assert forall c :: c in t <==> Get(t, c).Some?;
    assert forall c :: c in s ==> s[c] == Get(s, c).value && t[c] == Get(t, c).value;
  }

  /** The default loop: each context in turn may give the any-context entry. */
  method CoverTable<X(!new)>(alg: Algebra<X>, t: Table<X>, keys: seq<nat>) returns (ret: Table<X>)
    requires forall k :: k in keys ==> Some(k) in t
    ensures ret == CoveredBy(alg, t, keys)
  {
    ret := t;
    ghost var best := Get(t, None);
    var i := 0;
    while i < |keys|
      invariant 0 <= i <= |keys|
      invariant best == BestCover(alg, t, keys[..i], Get(t, None))
      invariant ret == WithAny(t, best) && (None in t ==> best.Some?)
    {
      assert keys[i] in keys && keys[..i + 1][..i] == keys[..i];
      var cand := alg.cover(keys[i], ret[Some(keys[i])]);
      NotedAny(alg, t, best, cand);
      ret := Noted(alg, ret, None, Some(cand));
      best := Smaller(alg, best, cand);
      i := i + 1;
    }
    assert keys[..i] == keys;
  }

  lemma NotedAny<X(!new)>(alg: Algebra<X>, t: Table<X>, best: Option<X>, cand: X)
    requires None in t ==> best.Some?
    ensures best == Get(WithAny(t, best), None)
    ensures Noted(alg, WithAny(t, best), None, Some(cand)) == WithAny(t, Smaller(alg, best, cand))
  {
  }

  /** One step of the dynamic program. */
  method Combine<X(!new)>(alg: Algebra<X>, l: Table<X>, r: Table<X>, hole: bool) returns (ret: Table<X>)
    ensures ret == JoinStep(alg, l, r, hole)
  {
    ret := JoinTables(alg, l, r);
    if !hole {
      var keys := AscendingKeys(Asns(ret));
      ret := CoverTable(alg, ret, keys);
    }
    ret := Retain(alg, ret, hole);
  }

  /** The retain steps: contexts no cheaper than the any-context entry go, and under a hole all but 0. */
  method Retain<X(!new)>(alg: Algebra<X>, t: Table<X>, hole: bool) returns (ret: Table<X>)
    ensures ret == Confined(Pruned(alg, t), hole)
  {
    ret := t;
    if None in ret {
      var best := alg.size(ret[None]);
      ret := map c | c in ret && (c.None? || alg.size(ret[c]) < best) :: ret[c];
    }
    if hole {
      ret := map c | c in ret && (c.None? || c == Some(0)) :: ret[c];
    }
  }

  /** Collecting the numeric contexts and sorting them. */
  method AscendingKeys(keys: set<nat>) returns (r: seq<nat>)
    ensures r == Sorted(NatLe, keys)
  {
    r := [];
    var rest := keys;
    while rest != {}
      invariant rest <= keys
      invariant forall k :: k in r <==> k in keys && k !in rest
      invariant forall i, j :: 0 <= i < j < |r| ==> r[i] < r[j]
      invariant forall i, k :: 0 <= i < |r| && k in rest ==> r[i] < k
      decreases rest
    {
      LeastExists(NatLe, rest);
      ghost var w :| IsLeast(NatLe, w, rest);
      assert w in rest && forall x :: x in rest ==> w <= x by {
        assert forall x :: x in rest ==> NatLe(w, x);
      }
      var m :| m in rest && forall x :: x in rest ==> m <= x;
      r := r + [m];
      rest := rest - {m};
    }
    SortedUnique(NatLe, r, Sorted(NatLe, keys));
  }
}
