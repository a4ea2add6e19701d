/** The shortest overlapping entry list: correctness and optimality of the table it is read from. */
module MinimalEntries {
  import opened Wrappers
  import opened Tries
  import opened Entries
  import opened Contexts
  import opened FlatEntries

  type EntryTable = Table<seq<Entry>>

  function JoinEntries(l: seq<Entry>, r: seq<Entry>): seq<Entry> {
    Below([false], l) + Below([true], r)
  }

  function CoverEntries(asn: nat, es: seq<Entry>): seq<Entry> {
    [Entry([], asn)] + es
  }

  function CountEntries(es: seq<Entry>): nat {
    |es|
  }

  /** Entry lists as descriptions, with prefixes relative to the node. */
  const ENTRIES: Algebra<seq<Entry>> := Algebra([], v => [Entry([], v)], JoinEntries, CoverEntries, CountEntries)

  ghost function Minimal(t: Trie, fill: bool): seq<Entry> {
    Best(ENTRIES, t, fill)
  }

  // ---------------------------------------------------------------- every list in the table is right

  ghost predicate Positive(es: seq<Entry>) {
    forall e :: e in es ==> e.asn > 0
  }

  ghost predicate DistinctPrefixes(es: seq<Entry>) {
    forall i, j :: 0 <= i < j < |es| ==> es[i].prefix != es[j].prefix
  }

  /** The list describes `t` in context `c`. */
  ghost predicate Describes(es: seq<Entry>, c: Context, t: Trie, fill: bool) {
    && Positive(es) && DistinctPrefixes(es)
    && forall a :: Fits(Some(a), c) ==> Meets(Rebuild(a, es), t, fill)
  }

  lemma JoinDescribes(l: seq<Entry>, r: seq<Entry>, cl: Context, cr: Context, c: Context, t: Trie, fill: bool)
    requires t.Branch? && Canonical(t) && Fits(c, cl) && Fits(c, cr)
    requires Describes(l, cl, t.left, fill) && Describes(r, cr, t.right, fill)
    ensures Describes(JoinEntries(l, r), c, t, fill)
    ensures forall e :: e in JoinEntries(l, r) ==> e.prefix != []
  {
    var es := JoinEntries(l, r);
    forall i | 0 <= i < |es| ensures es[i].asn > 0 {
      assert es[i].asn == if i < |l| then l[i].asn else r[i - |l|].asn;
    }
    forall i, j | 0 <= i < j < |es| ensures es[i].prefix != es[j].prefix {
      assert es[i].prefix[1..] == if i < |l| then l[i].prefix else r[i - |l|].prefix;
      assert es[j].prefix[1..] == if j < |l| then l[j].prefix else r[j - |l|].prefix;
    }
    forall a | Fits(Some(a), c) ensures Meets(Rebuild(a, es), t, fill) {
      RebuildHalves(a, l, r);
      MeetsBranch(Rebuild(a, l), Rebuild(a, r), t, fill);
    }
  }

  lemma CoverDescribes(es: seq<Entry>, k: nat, t: Trie, fill: bool)
    requires k > 0 && Describes(es, Some(k), t, fill) && forall e :: e in es ==> e.prefix != []
    ensures Describes(CoverEntries(k, es), None, t, fill)
  {
    forall a ensures Meets(Rebuild(a, CoverEntries(k, es)), t, fill) {
      RebuildCovered(a, k, es);
      assert Fits(Some(k), Some(k));
    }
  }

  ghost predicate AllDescribe(table: EntryTable, t: Trie, fill: bool) {
    forall c :: c in table ==> Describes(table[c], c, t, fill)
  }

  lemma {:induction false} TableDescribes(t: Trie, fill: bool)
    requires Canonical(t)
    ensures AllDescribe(Tabulate(ENTRIES, t, fill).0, t, fill)
  {
    match t {
      case Leaf(v) => LeafDescribes(v, fill);
      case Branch(left, right) =>
        TableDescribes(left, fill);
        TableDescribes(right, fill);
        TabulateShaped(ENTRIES, left, fill);
        TabulateShaped(ENTRIES, right, fill);
        StepDescribes(Tabulate(ENTRIES, left, fill).0, Tabulate(ENTRIES, right, fill).0, t, fill);
    }
  }

  lemma LeafDescribes(v: nat, fill: bool)
    ensures AllDescribe(Tabulate(ENTRIES, Leaf(v), fill).0, Leaf(v), fill)
  {
    var table := Tabulate(ENTRIES, Leaf(v), fill).0;
    forall c | c in table ensures Describes(table[c], c, Leaf(v), fill) {
      forall a | Fits(Some(a), c) ensures Meets(Rebuild(a, table[c]), Leaf(v), fill) {
        RebuildCovered(a, v, []);
        assert CoverEntries(v, []) == [Entry([], v)];
      }
    }
  }

  lemma StepDescribes(l: EntryTable, r: EntryTable, t: Trie, fill: bool)
    requires t.Branch? && Canonical(t)
    requires AllDescribe(l, t.left, fill) && AllDescribe(r, t.right, fill)
    requires Shaped(l, Hole(t.left, fill)) && Shaped(r, Hole(t.right, fill))
    ensures AllDescribe(JoinStep(ENTRIES, l, r, Hole(t, fill)), t, fill)
  {
    var table := JoinStep(ENTRIES, l, r, Hole(t, fill));
    forall c | c in table ensures Describes(table[c], c, t, fill) {
      StepProvenance(ENTRIES, l, r, Hole(t, fill), c);
      if FromHalves(ENTRIES, l, r, c, table[c]) {
        HalvesDescribe(l, r, c, table[c], t, fill);
      } else {
        var k, y :| FromHalves(ENTRIES, l, r, Some(k), y) && table[c] == ENTRIES.cover(k, y);
        CoversAreAssigned(ENTRIES, l, r, k, y);
        HalvesDescribe(l, r, Some(k), y, t, fill);
        CoverDescribes(y, k, t, fill);
      }
    }
  }

  lemma HalvesDescribe(l: EntryTable, r: EntryTable, c: Context, x: seq<Entry>, t: Trie, fill: bool)
    requires t.Branch? && Canonical(t) && FromHalves(ENTRIES, l, r, c, x)
    requires AllDescribe(l, t.left, fill) && AllDescribe(r, t.right, fill)
    ensures Describes(x, c, t, fill) && forall e :: e in x ==> e.prefix != []
  {
    if c in l && c in r && x == JoinEntries(l[c], r[c]) {
      JoinDescribes(l[c], r[c], c, c, c, t, fill);
    } else if None in l && c in r && x == JoinEntries(l[None], r[c]) {
      JoinDescribes(l[None], r[c], None, c, c, t, fill);
    } else {
      JoinDescribes(l[c], r[None], c, None, c, t, fill);
    }
  }

  /** The minimal list rebuilds the map (with `fill`, one extending it), and no prefix repeats in it. */
  lemma MinimalRebuilds(t: Trie, fill: bool)
    requires Canonical(t)
    ensures Meets(Rebuild(0, Minimal(t, fill)), t, fill)
    ensures Positive(Minimal(t, fill)) && DistinctPrefixes(Minimal(t, fill))
  {
    TableDescribes(t, fill);
    BestFound(ENTRIES, t, fill);
  }

  // ---------------------------------------------------------------- the order of the list

  /** The second range lies inside the first or follows it. */
  predicate Precedes(p: Path, q: Path) {
    p < q || Before(p, q)
  }

  ghost predicate InPreorder(ps: seq<Path>) {
    forall i, j :: 0 <= i < j < |ps| ==> Precedes(ps[i], ps[j])
  }

  lemma PrecedesStep(bit: bool, p: Path, q: Path)
    ensures Precedes([bit] + p, [bit] + q) <==> Precedes(p, q)
  {
    BeforeStep(bit, p, q);
    StepApart(bit, p, q);
  }

  lemma JoinInPreorder(l: seq<Entry>, r: seq<Entry>)
    requires InPreorder(Prefixes(l)) && InPreorder(Prefixes(r))
    ensures InPreorder(Prefixes(JoinEntries(l, r)))
    ensures forall p :: p in Prefixes(JoinEntries(l, r)) ==> p != []
  {
    var ps, pl, pr := Prefixes(JoinEntries(l, r)), Prefixes(l), Prefixes(r);
    assert ps == Sides(pl, pr);
    forall i, j | 0 <= i < j < |ps| ensures Precedes(ps[i], ps[j]) {
      if j < |l| {
        PrecedesStep(false, pl[i], pl[j]);
      } else if i >= |l| {
        PrecedesStep(true, pr[i - |l|], pr[j - |l|]);
      }
    }
  }

  ghost predicate AllInPreorder(table: EntryTable) {
    forall c :: c in table ==> InPreorder(Prefixes(table[c]))
  }

  lemma HalvesInPreorder(l: EntryTable, r: EntryTable, c: Context, x: seq<Entry>)
    requires AllInPreorder(l) && AllInPreorder(r) && FromHalves(ENTRIES, l, r, c, x)
    ensures InPreorder(Prefixes(x)) && forall p :: p in Prefixes(x) ==> p != []
  {
    if c in l && c in r && x == JoinEntries(l[c], r[c]) {
      JoinInPreorder(l[c], r[c]);
    } else if None in l && c in r && x == JoinEntries(l[None], r[c]) {
      JoinInPreorder(l[None], r[c]);
    } else {
      JoinInPreorder(l[c], r[None]);
    }
  }

  lemma CoverInPreorder(k: nat, es: seq<Entry>)
    requires InPreorder(Prefixes(es)) && forall p :: p in Prefixes(es) ==> p != []
    ensures InPreorder(Prefixes(CoverEntries(k, es)))
  {
    var ps := Prefixes(es);
    assert Prefixes(CoverEntries(k, es)) == [[]] + ps;
    forall i | 0 <= i < |ps| ensures Precedes([], ps[i]) {
      assert ps[i] in ps;
    }
  }

  lemma {:induction false} TableInPreorder(t: Trie, fill: bool)
    ensures AllInPreorder(Tabulate(ENTRIES, t, fill).0)
  {
    if t.Branch? {
      var l, r := Tabulate(ENTRIES, t.left, fill).0, Tabulate(ENTRIES, t.right, fill).0;
      TableInPreorder(t.left, fill);
      TableInPreorder(t.right, fill);
      TableOfBranch(ENTRIES, t, fill);
      var table := JoinStep(ENTRIES, l, r, Hole(t, fill));
      forall c | c in table ensures InPreorder(Prefixes(table[c])) {
        StepProvenance(ENTRIES, l, r, Hole(t, fill), c);
        if FromHalves(ENTRIES, l, r, c, table[c]) {
          HalvesInPreorder(l, r, c, table[c]);
        } else {
          var k, y :| FromHalves(ENTRIES, l, r, Some(k), y) && table[c] == ENTRIES.cover(k, y);
          HalvesInPreorder(l, r, Some(k), y);
          CoverInPreorder(k, y);
        }
      }
    }
  }

  /** A range is listed before what lies inside it, and otherwise the list ascends. */
  lemma MinimalInPreorder(t: Trie, fill: bool)
    ensures InPreorder(Prefixes(Minimal(t, fill)))
  {
    TableInPreorder(t, fill);
    BestFound(ENTRIES, t, fill);
  }

  // ---------------------------------------------------------------- no list is shorter

  /** Assigned space can be overwritten but never unassigned by positive entries. */
  lemma RebuildLeavesNoHole(a: nat, es: seq<Entry>)
    requires a > 0 && Positive(es)
    ensures !HasAsn(Rebuild(a, es), 0)
  {
    ByLengthIsStableSort(es);
    assert Positive(ByLength(es));
    if HasAsn(Rebuild(a, es), 0) {
      ApplyAsns(Leaf(a), ByLength(es), 0);
    }
  }

  lemma InsidePositive(es: seq<Entry>, bit: bool)
    requires Positive(es)
    ensures Positive(Inside(es, bit))
  {
    InsideMembers(es, bit);
  }

  /**
   * Lower bound: whatever list rebuilds `t` on a range mapped to `a`, the table
   * has an entry usable there that is at most as long.
   */
  lemma {:induction false} TableIsOptimal(t: Trie, fill: bool, a: nat, es: seq<Entry>)
    requires Canonical(t) && Positive(es) && Meets(Rebuild(a, es), t, fill)
    ensures Affords(ENTRIES, Tabulate(ENTRIES, t, fill).0, Some(a), |es|)
  {
    match t {
      case Leaf(v) => LeafIsOptimal(v, fill, a, es);
      case Branch(left, right) =>
        var root := RootAsn(a, es);
        SplitMeets(t, fill, a, es);
        InsidePositive(es, false);
        InsidePositive(es, true);
        TableIsOptimal(left, fill, root, Inside(es, false));
        TableIsOptimal(right, fill, root, Inside(es, true));
        BranchIsOptimal(t, fill, a, es);
    }
  }

  lemma SplitMeets(t: Trie, fill: bool, a: nat, es: seq<Entry>)
    requires t.Branch? && Canonical(t) && Meets(Rebuild(a, es), t, fill)
    ensures Meets(Rebuild(RootAsn(a, es), Inside(es, false)), t.left, fill)
    ensures Meets(Rebuild(RootAsn(a, es), Inside(es, true)), t.right, fill)
  {
    var root := RootAsn(a, es);
    RebuildUnfold(a, es);
    MeetsBranch(Rebuild(root, Inside(es, false)), Rebuild(root, Inside(es, true)), t, fill);
  }

  /** A list that leaves no hole on an assigned range meets no subtree that has one. */
  lemma AssignedHasNoHole(t: Trie, fill: bool, a: nat, es: seq<Entry>)
    requires a > 0 && Positive(es) && Meets(Rebuild(a, es), t, fill)
    ensures !Hole(t, fill)
  {
    RebuildLeavesNoHole(a, es);
  }

  lemma BranchIsOptimal(t: Trie, fill: bool, a: nat, es: seq<Entry>)
    requires t.Branch? && Canonical(t) && Positive(es) && Meets(Rebuild(a, es), t, fill)
    requires Affords(ENTRIES, Tabulate(ENTRIES, t.left, fill).0, Some(RootAsn(a, es)), |Inside(es, false)|)
    requires Affords(ENTRIES, Tabulate(ENTRIES, t.right, fill).0, Some(RootAsn(a, es)), |Inside(es, true)|)
    ensures Affords(ENTRIES, Tabulate(ENTRIES, t, fill).0, Some(a), |es|)
  {
    var root := RootAsn(a, es);
    var l, r := Tabulate(ENTRIES, t.left, fill).0, Tabulate(ENTRIES, t.right, fill).0;
    InsideMembers(es, false);
    TableOfBranch(ENTRIES, t, fill);
    if root == a {
      if a > 0 {
        AssignedHasNoHole(t, fill, a, es);
      }
      StepAffords(l, r, Hole(t, fill), a, |Inside(es, false)|, |Inside(es, true)|, |es|);
    } else {
      RootAsnFound(a, es);
      assert Entry([], root) in es;
      SplitMeets(t, fill, a, es);
      InsidePositive(es, false);
      InsidePositive(es, true);
      AssignedHasNoHole(t.left, fill, root, Inside(es, false));
      AssignedHasNoHole(t.right, fill, root, Inside(es, true));
      CoverAffords(l, r, root, a, |Inside(es, false)|, |Inside(es, true)|, |es|);
    }
  }

  lemma StepAffords(l: EntryTable, r: EntryTable, hole: bool, a: nat, m: nat, n: nat, total: nat)
    requires Affords(ENTRIES, l, Some(a), m) && Affords(ENTRIES, r, Some(a), n)
    requires m + n <= total && (hole ==> a == 0)
    ensures Affords(ENTRIES, JoinStep(ENTRIES, l, r, hole), Some(a), total)
  {
    var cl :| Fits(Some(a), cl) && cl in l && ENTRIES.size(l[cl]) <= m;
    var cr :| Fits(Some(a), cr) && cr in r && ENTRIES.size(r[cr]) <= n;
    StepBest(ENTRIES, l, r, hole, Some(a), cl, cr);
  }

  lemma CoverAffords(l: EntryTable, r: EntryTable, root: nat, a: nat, m: nat, n: nat, total: nat)
    requires Affords(ENTRIES, l, Some(root), m) && Affords(ENTRIES, r, Some(root), n)
    requires m + n < total
    ensures Affords(ENTRIES, JoinStep(ENTRIES, l, r, false), Some(a), total)
  {
    var cl :| Fits(Some(root), cl) && cl in l && ENTRIES.size(l[cl]) <= m;
    var cr :| Fits(Some(root), cr) && cr in r && ENTRIES.size(r[cr]) <= n;
    StepBestCover(ENTRIES, l, r, root, cl, cr);
    assert Fits(Some(a), None);
  }

  lemma LeafIsOptimal(v: nat, fill: bool, a: nat, es: seq<Entry>)
    requires Positive(es) && Meets(Rebuild(a, es), Leaf(v), fill)
    ensures Affords(ENTRIES, Tabulate(ENTRIES, Leaf(v), fill).0, Some(a), |es|)
  {
    var table := Tabulate(ENTRIES, Leaf(v), fill).0;
    if v == 0 && fill {
      assert Fits(Some(a), None) && None in table;
    } else if a == v {
      assert Fits(Some(a), Some(v)) && Some(v) in table;
    } else {
      assert es != [] by {
        assert Rebuild(a, []) == Leaf(a);
      }
      if a > 0 {
        RebuildLeavesNoHole(a, es);
      }
      RebuildCanonical(a, es);
      assert Fits(Some(a), None) && None in table;
    }
  }

  /**
   * Optimality: no list of assigned entries that rebuilds the map (with `fill`,
   * a map extending it) is shorter than the minimal one.
   */
  lemma MinimalIsShortest(t: Trie, fill: bool, es: seq<Entry>)
    requires Canonical(t) && Positive(es) && Meets(Rebuild(0, es), t, fill)
    ensures |Minimal(t, fill)| <= |es|
  {
    TableIsOptimal(t, fill, 0, es);
    BestFound(ENTRIES, t, fill);
  }

  lemma FlatPositive(t: Trie, fill: bool)
    ensures Positive(Flat(t, fill))
  {
    forall e | e in Flat(t, fill) ensures e.asn > 0 {
      FlatAsns(t, fill, e.asn);
      assert Carries(Flat(t, fill), e.asn);
    }
  }

  /** Overlap never lengthens the list, and neither does filling. */
  lemma MinimalNeverLonger(t: Trie, fill: bool)
    requires Canonical(t)
    ensures |Minimal(t, fill)| <= |Flat(t, fill)|
    ensures |Minimal(t, true)| <= |Minimal(t, false)|
  {
    FlatRebuilds(t, fill);
    FlatPositive(t, fill);
    MinimalIsShortest(t, fill, Flat(t, fill));
    MinimalRebuilds(t, false);
    ExtendsReflexive(t);
    MinimalIsShortest(t, true, Minimal(t, false));
  }

  // ---------------------------------------------------------------- recursion with one mutable prefix

  function Concatenate(l: seq<Entry>, r: seq<Entry>): seq<Entry> {
    l + r
  }

  /** The same descriptions with absolute prefixes, at the node reached by `at`. */
  function EntriesAt(at: Path): Algebra<seq<Entry>> {
    Algebra([], v => [Entry(at, v)], Concatenate, (k, es) => [Entry(at, k)] + es, CountEntries)
  }

  function Shift(at: Path): seq<Entry> -> seq<Entry> {
    es => Below(at, es)
  }

  lemma ShiftTransports(at: Path)
    ensures Transports(ENTRIES, EntriesAt(at), Shift(at), Shift(at + [false]), Shift(at + [true]))
  {
    forall a: seq<Entry>, b: seq<Entry>
      ensures Shift(at)(ENTRIES.join(a, b)) == EntriesAt(at).join(Shift(at + [false])(a), Shift(at + [true])(b))
    {
      BelowAppend(at, Below([false], a), Below([true], b));
      BelowBelow(at, [false], a);
      BelowBelow(at, [true], b);
    }
    forall k: nat, a: seq<Entry> ensures Shift(at)(ENTRIES.cover(k, a)) == EntriesAt(at).cover(k, Shift(at)(a)) {
      BelowAppend(at, [Entry([], k)], a);
      assert at + [] == at;
      assert Below(at, [Entry([], k)]) == [Entry(at, k)];
    }
  }

  method CollectTable(t: Trie, at: Path, fill: bool) returns (table: EntryTable, hole: bool, prefix: Path)
    ensures prefix == at
    ensures table == Mapped(Shift(at), Tabulate(ENTRIES, t, fill).0) && hole == Tabulate(ENTRIES, t, fill).1
    decreases t
  {
    prefix := at;
    match t {
      case Leaf(v) =>
        ShiftedLeaf(at, v, fill);
        if v == 0 {
          return map[if fill then None else Some(0) := []], true, prefix;
        }
        return map[Some(v) := [], None := [Entry(prefix, v)]], false, prefix;
      case Branch(l, r) =>
        var lt, lhole, rt, rhole;
        prefix := prefix + [false];
        lt, lhole, prefix := CollectTable(l, prefix, fill);
        prefix := prefix[..|prefix| - 1] + [true];
        assert prefix == at + [true];
        rt, rhole, prefix := CollectTable(r, prefix, fill);
        prefix := prefix[..|prefix| - 1];
        assert prefix == at;
        hole := !fill && (lhole || rhole);
        table := Combine(EntriesAt(at), lt, rt, hole);
        ShiftedStep(at, Tabulate(ENTRIES, l, fill).0, Tabulate(ENTRIES, r, fill).0, hole);
    }
  }

  lemma ShiftedLeaf(at: Path, v: nat, fill: bool)
    ensures Mapped(Shift(at), LeafTable(ENTRIES, v, fill)) ==
      if v == 0 then map[if fill then None else Some(0) := []] else map[Some(v) := [], None := [Entry(at, v)]]
  {
    assert at + [] == at && Below(at, []) == [];
    assert Below(at, [Entry([], v)]) == [Entry(at, v)];
  }

  lemma ShiftedStep(at: Path, l: EntryTable, r: EntryTable, hole: bool)
    ensures JoinStep(EntriesAt(at), Mapped(Shift(at + [false]), l), Mapped(Shift(at + [true]), r), hole) ==
            Mapped(Shift(at), JoinStep(ENTRIES, l, r, hole))
  {
    ShiftTransports(at);
    MappedStep(ENTRIES, EntriesAt(at), Shift(at), Shift(at + [false]), Shift(at + [true]), l, r, hole);
  }

  /** The minimal list; the top level stands in unassigned space. */
  method CollectMinimal(t: Trie, fill: bool) returns (es: seq<Entry>)
    ensures es == Minimal(t, fill)
  {
    var table, hole, prefix := CollectTable(t, [], fill);
    assert forall es :: Shift([])(es) == es by {
      forall es ensures Shift([])(es) == es {
        BelowNothing(es);
      }
    }
    if Some(0) in table {
      es := table[Some(0)];
    } else {
      es := if None in table then table[None] else [];
    }
  }
}
