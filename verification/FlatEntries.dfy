/** The non-overlapping entry list: one entry per assigned leaf, or fewer with `fill`. */
module FlatEntries {
  import opened Wrappers
  import opened Tries
  import opened Entries

  predicate OneAsn(es: seq<Entry>) {
    forall i :: 0 <= i < |es| ==> es[i].asn == es[0].asn
  }

  /** With `fill`, several entries that agree collapse to one for the whole range. */
  function Collapse(es: seq<Entry>, fill: bool): seq<Entry> {
    if fill && |es| > 1 && OneAsn(es) then [Entry([], es[0].asn)] else es
  }

  /** The list, with prefixes relative to the node. */
  function Flat(t: Trie, fill: bool): seq<Entry> {
    match t
    case Leaf(v) => if v > 0 then [Entry([], v)] else []
    case Branch(l, r) => Collapse(Below([false], Flat(l, fill)) + Below([true], Flat(r, fill)), fill)
  }

  /** The recursion itself, pushing and popping the path it stands on. */
  method Collect(t: Trie, at: Path, fill: bool) returns (es: seq<Entry>, prefix: Path)
    ensures prefix == at
    ensures es == Below(at, Flat(t, fill))
    decreases t
  {
    prefix := at;
    match t {
      case Leaf(v) =>
        es := if v > 0 then [Entry(prefix, v)] else [];
        assert at + [] == at;
      case Branch(l, r) =>
        prefix := prefix + [false];
        es, prefix := Collect(l, prefix, fill);
        prefix := prefix[..|prefix| - 1] + [true];
        var right;
        right, prefix := Collect(r, prefix, fill);
        es := es + right;
        prefix := prefix[..|prefix| - 1];
        ghost var joined := Below([false], Flat(l, fill)) + Below([true], Flat(r, fill));
        BelowBelow(at, [false], Flat(l, fill));
        BelowBelow(at, [true], Flat(r, fill));
        BelowAppend(at, Below([false], Flat(l, fill)), Below([true], Flat(r, fill)));
        assert es == Below(at, joined);
        assert forall i :: 0 <= i < |es| ==> es[i].asn == joined[i].asn;
        assert OneAsn(es) ==> OneAsn(joined) by {
          if OneAsn(es) {
            forall i | 0 <= i < |joined| ensures joined[i].asn == joined[0].asn {
              assert es[i].asn == es[0].asn;
            }
          }
        }
        if fill && |es| > 1 {
          var first := es[0].asn;
          if forall i :: 0 <= i < |es| ==> es[i].asn == first {
            es := [Entry(prefix, first)];
            assert at + [] == at;
          }
        }
    }
  }

  ghost predicate PairwiseApart(es: seq<Entry>) {
    forall i, j :: 0 <= i < j < |es| ==> Apart(es[i].prefix, es[j].prefix)
  }

  lemma ApartConsistent(es: seq<Entry>)
    requires PairwiseApart(es)
    ensures Consistent(es)
  {
  }

  lemma BelowApart(es: seq<Entry>, bit: bool)
    requires PairwiseApart(es)
    ensures PairwiseApart(Below([bit], es))
  {
    var b := Below([bit], es);
    forall i, j | 0 <= i < j < |b| ensures Apart(b[i].prefix, b[j].prefix) {
      StepApart(bit, es[i].prefix, es[j].prefix);
      StepApart(bit, es[j].prefix, es[i].prefix);
    }
  }

  lemma StepApart(bit: bool, p: Path, q: Path)
    ensures [bit] + p <= [bit] + q <==> p <= q
  {
    assert ([bit] + p)[1..] == p && ([bit] + q)[1..] == q;
    if [bit] + p <= [bit] + q {
      assert p == ([bit] + q)[1..|p| + 1];
    }
  }

  /** No two entries of the list share an address, so no prefix repeats. */
  lemma {:induction false} FlatIsDisjoint(t: Trie, fill: bool)
    ensures PairwiseApart(Flat(t, fill))
  {
    if t.Branch? {
      FlatIsDisjoint(t.left, fill);
      FlatIsDisjoint(t.right, fill);
      BelowApart(Flat(t.left, fill), false);
      BelowApart(Flat(t.right, fill), true);
      var l, r := Below([false], Flat(t.left, fill)), Below([true], Flat(t.right, fill));
      forall e, f | e in l && f in r ensures Apart(e.prefix, f.prefix) {
        assert e.prefix[0] == false && f.prefix[0] == true;
      }
      assert PairwiseApart(l + r);
    }
  }

  ghost predicate Carries(es: seq<Entry>, v: nat) {
    exists e :: e in es && e.asn == v
  }

  lemma CollapseCarries(es: seq<Entry>, fill: bool, v: nat)
    ensures Carries(Collapse(es, fill), v) <==> Carries(es, v)
  {
    if Collapse(es, fill) != es {
      assert es[0] in es;
      assert forall e :: e in es ==> e.asn == es[0].asn;
      assert Collapse(es, fill)[0] in Collapse(es, fill);
    }
  }

  lemma BelowCarries(path: Path, es: seq<Entry>, v: nat)
    ensures Carries(Below(path, es), v) <==> Carries(es, v)
  {
    BelowMembers(path, es);
  }

  lemma AppendCarries(es: seq<Entry>, fs: seq<Entry>, v: nat)
    ensures Carries(es + fs, v) <==> Carries(es, v) || Carries(fs, v)
  {
    if Carries(es + fs, v) {
      var e :| e in es + fs && e.asn == v;
      assert e in es || e in fs;
    } else {
      assert forall e :: e in es || e in fs ==> e in es + fs;
    }
  }

  /** The flat list carries exactly the assigned ASNs of the map. */
  lemma {:induction false} FlatAsns(t: Trie, fill: bool, v: nat)
    ensures Carries(Flat(t, fill), v) <==> v > 0 && HasAsn(t, v)
  {
    match t {
      case Leaf(a) =>
        if a > 0 {
          assert Flat(t, fill)[0] in Flat(t, fill);
        }
      case Branch(left, right) =>
        FlatAsns(left, fill, v);
        FlatAsns(right, fill, v);
        var l, r := Below([false], Flat(left, fill)), Below([true], Flat(right, fill));
        BelowCarries([false], Flat(left, fill), v);
        BelowCarries([true], Flat(right, fill), v);
        AppendCarries(l, r, v);
        CollapseCarries(l + r, fill, v);
    }
  }

  /** Rebuilding from the flat list gives the map back; with `fill`, a map that extends it. */
  lemma {:induction false} FlatRebuilds(t: Trie, fill: bool)
    requires Canonical(t)
    ensures Meets(Rebuild(0, Flat(t, fill)), t, fill)
  {
    match t {
      case Leaf(v) =>
        if v > 0 {
          RebuildCovered(0, v, []);
          assert [Entry([], v)] + [] == [Entry([], v)];
        }
      case Branch(l, r) =>
        var joined := Below([false], Flat(l, fill)) + Below([true], Flat(r, fill));
        if Flat(t, fill) == joined {
          FlatRebuilds(l, fill);
          FlatRebuilds(r, fill);
          RebuildHalves(0, Flat(l, fill), Flat(r, fill));
          MeetsBranch(Rebuild(0, Flat(l, fill)), Rebuild(0, Flat(r, fill)), t, fill);
        } else {
          var v := joined[0].asn;
          forall a | HasAsn(t, a) ensures a == 0 || a == v {
            FlatAsns(t, fill, a);
            assert a > 0 ==> Carries([Entry([], v)], a);
          }
          LeafExtends(v, t);
          RebuildCovered(0, v, []);
          assert [Entry([], v)] + [] == [Entry([], v)];
        }
    }
  }

  /** Filling never lengthens the flat list. */
  lemma {:induction false} FillNeverLengthensFlat(t: Trie)
    ensures |Flat(t, true)| <= |Flat(t, false)|
  {
    if t.Branch? {
      FillNeverLengthensFlat(t.left);
      FillNeverLengthensFlat(t.right);
    }
  }

  /** `path` ends exactly on an assigned leaf: it resolves, and nothing shorter does. */
  ghost predicate AssignedLeaf(t: Trie, path: Path, asn: nat) {
    asn > 0 && Lookup(t, path) == Some(asn) && forall n :: 0 <= n < |path| ==> Lookup(t, path[..n]).None?
  }

  lemma FlatMemberHalf(t: Trie, e: Entry)
    requires t.Branch? && e.prefix != []
    ensures e in Flat(t, false) <==> Entry(e.prefix[1..], e.asn) in Flat(Half(t, e.prefix[0]), false)
  {
    var bit, inner := e.prefix[0], Entry(e.prefix[1..], e.asn);
    assert e.prefix == [bit] + inner.prefix;
    BelowMembers([bit], Flat(Half(t, bit), false));
    BelowMembers([!bit], Flat(Half(t, !bit), false));
    var l, r := Below([false], Flat(t.left, false)), Below([true], Flat(t.right, false));
    assert Flat(t, false) == l + r;
    assert e in l + r <==> e in Below([bit], Flat(Half(t, bit), false));
  }

  lemma RootNotFlat(t: Trie, e: Entry)
    requires t.Branch? && e.prefix == []
    ensures e !in Flat(t, false)
  {
    assert Flat(t, false) == Below([false], Flat(t.left, false)) + Below([true], Flat(t.right, false));
  }

  /** Without `fill` the list is the set of assigned leaves. */
  lemma {:induction false} FlatIsAssignedLeaves(t: Trie, e: Entry)
    ensures e in Flat(t, false) <==> AssignedLeaf(t, e.prefix, e.asn)
  {
    if t.Leaf? {
      assert e.prefix != [] ==> Lookup(t, e.prefix[..0]).Some?;
    } else if e.prefix == [] {
      RootNotFlat(t, e);
    } else {
      FlatIsAssignedLeaves(Half(t, e.prefix[0]), Entry(e.prefix[1..], e.asn));
      FlatMemberHalf(t, e);
      AssignedLeafHalf(t, e.prefix, e.asn);
    }
  }

  lemma AssignedLeafHalf(t: Trie, path: Path, asn: nat)
    requires t.Branch? && path != []
    ensures AssignedLeaf(t, path, asn) <==> AssignedLeaf(Half(t, path[0]), path[1..], asn)
  {
    var half, rest := Half(t, path[0]), path[1..];
    forall n | 0 <= n < |rest| ensures Lookup(half, rest[..n]) == Lookup(t, path[..n + 1]) {
      assert path[..n + 1][1..] == rest[..n];
    }
    if AssignedLeaf(half, rest, asn) {
      forall n | 0 <= n < |path| ensures Lookup(t, path[..n]).None? {
        if n > 0 {
          assert Lookup(half, rest[..n - 1]).None?;
        }
      }
    }
  }

  // ---------------------------------------------------------------- what filling collapses

  /** The range at `path`; None past a leaf. */
  function Sub(t: Trie, path: Path): Option<Trie> {
    if path == [] then Some(t)
    else if t.Leaf? then None
    else Sub(Half(t, path[0]), path[1..])
  }

  /** One ASN is assigned in the range, and in both its halves. */
  ghost predicate Tight(t: Trie, asn: nat) {
    asn > 0 && OnlyAsn(t, asn) && forall bit :: HasAsn(Half(t, bit), asn)
  }

  /** The widest ranges that are tight. */
  ghost predicate Outermost(t: Trie, path: Path, asn: nat) {
    && Sub(t, path).Some? && Tight(Sub(t, path).value, asn)
    && forall n :: 0 <= n < |path| && Sub(t, path[..n]).Some? ==> !Tight(Sub(t, path[..n]).value, asn)
  }

  lemma TightHas(t: Trie, asn: nat)
    ensures Tight(t, asn) ==> HasAsn(t, asn)
  {
    if Tight(t, asn) {
      assert HasAsn(Half(t, false), asn);
    }
  }

  lemma {:induction false} OnlyAsnFlat(t: Trie, asn: nat)
    requires asn > 0 && OnlyAsn(t, asn)
    ensures |Flat(t, true)| == if HasAsn(t, asn) then 1 else 0
  {
    match t {
      case Leaf(v) => assert HasAsn(t, v);
      case Branch(left, right) =>
        assert forall a :: HasAsn(left, a) || HasAsn(right, a) ==> HasAsn(t, a);
        OnlyAsnFlat(left, asn);
        OnlyAsnFlat(right, asn);
        var l, r := Below([false], Flat(left, true)), Below([true], Flat(right, true));
        FlatCarriesOnly(t, asn, l + r);
    }
  }

  /** The halves of the list name no ASN but those of the map. */
  lemma FlatCarriesOnly(t: Trie, asn: nat, es: seq<Entry>)
    requires t.Branch? && es == Below([false], Flat(t.left, true)) + Below([true], Flat(t.right, true))
    ensures OnlyAsn(t, asn) <==> forall i :: 0 <= i < |es| ==> es[i].asn == asn
    ensures OnlyAsn(t, asn) ==> OneAsn(es)
  {
    var l, r := Below([false], Flat(t.left, true)), Below([true], Flat(t.right, true));
    forall a ensures Carries(es, a) <==> a > 0 && HasAsn(t, a) {
      FlatAsns(t.left, true, a);
      FlatAsns(t.right, true, a);
      BelowCarries([false], Flat(t.left, true), a);
      BelowCarries([true], Flat(t.right, true), a);
      AppendCarries(l, r, a);
    }
    forall i | 0 <= i < |es| ensures Carries(es, es[i].asn) {
      assert es[i] in es;
    }
    if forall i :: 0 <= i < |es| ==> es[i].asn == asn {
      forall a | HasAsn(t, a) ensures a == 0 || a == asn {
        if a > 0 {
          assert Carries(es, a);
        }
      }
    }
  }

  /** The list of a branch collapses exactly when the branch is tight. */
  lemma CollapsesIffTight(t: Trie, asn: nat)
    requires t.Branch?
    ensures Tight(t, asn) ==> Flat(t, true) == [Entry([], asn)]
    ensures (forall v :: !Tight(t, v)) ==>
      Flat(t, true) == Below([false], Flat(t.left, true)) + Below([true], Flat(t.right, true))
  {
    var es := Below([false], Flat(t.left, true)) + Below([true], Flat(t.right, true));
    if Tight(t, asn) {
      assert HasAsn(Half(t, false), asn) && HasAsn(Half(t, true), asn);
      assert forall a :: HasAsn(t.left, a) || HasAsn(t.right, a) ==> HasAsn(t, a);
      OnlyAsnFlat(t.left, asn);
      OnlyAsnFlat(t.right, asn);
      FlatCarriesOnly(t, asn, es);
    } else if Flat(t, true) != es {
      var v := es[0].asn;
      FlatCarriesOnly(t, v, es);
      CollapsedTight(t, v, es);
    }
  }

  lemma CollapsedTight(t: Trie, v: nat, es: seq<Entry>)
    requires t.Branch? && es == Below([false], Flat(t.left, true)) + Below([true], Flat(t.right, true))
    requires |es| > 1 && OnlyAsn(t, v) && es[0].asn == v
    ensures Tight(t, v)
  {
    assert forall a :: HasAsn(t.left, a) || HasAsn(t.right, a) ==> HasAsn(t, a);
    assert Carries(es, v) by {
      assert es[0] in es;
    }
    BelowCarries([false], Flat(t.left, true), v);
    BelowCarries([true], Flat(t.right, true), v);
    AppendCarries(Below([false], Flat(t.left, true)), Below([true], Flat(t.right, true)), v);
    FlatAsns(t.left, true, v);
    FlatAsns(t.right, true, v);
    OnlyAsnFlat(t.left, v);
    OnlyAsnFlat(t.right, v);
    forall bit ensures HasAsn(Half(t, bit), v) {
    }
  }

  lemma OutermostHalf(t: Trie, path: Path, asn: nat)
    requires t.Branch? && path != [] && !Tight(t, asn)
    ensures Outermost(t, path, asn) <==> Outermost(Half(t, path[0]), path[1..], asn)
  {
    var half, rest := Half(t, path[0]), path[1..];
    forall n | 0 <= n < |rest| ensures Sub(half, rest[..n]) == Sub(t, path[..n + 1]) {
      assert path[..n + 1][1..] == rest[..n];
    }
    if Outermost(half, rest, asn) {
      forall n | 0 <= n < |path| && Sub(t, path[..n]).Some? ensures !Tight(Sub(t, path[..n]).value, asn) {
        if n == 0 {
          assert path[..0] == [];
        } else {
          assert Sub(half, rest[..n - 1]) == Sub(t, path[..n]);
        }
      }
    }
  }

  lemma TightAlone(t: Trie, path: Path, v: nat, asn: nat)
    requires Tight(t, v)
    ensures Outermost(t, path, asn) <==> path == [] && asn == v
  {
    TightHas(t, v);
    if path != [] {
      assert path[..0] == [] && Sub(t, path[..0]) == Some(t);
      if Outermost(t, path, asn) {
        TightHas(Sub(t, path).value, asn);
        SubAsn(t, path, asn);
      }
    } else {
      TightHas(t, asn);
    }
  }

  lemma {:induction false} SubAsn(t: Trie, path: Path, asn: nat)
    requires Sub(t, path).Some? && HasAsn(Sub(t, path).value, asn)
    ensures HasAsn(t, asn)
    decreases |path|
  {
    if path != [] {
      SubAsn(Half(t, path[0]), path[1..], asn);
    }
  }

  lemma JoinedMember(t: Trie, e: Entry)
    requires t.Branch?
    ensures e in Below([false], Flat(t.left, true)) + Below([true], Flat(t.right, true)) <==>
      e.prefix != [] && Entry(e.prefix[1..], e.asn) in Flat(Half(t, e.prefix[0]), true)
  {
    BelowMembers([false], Flat(t.left, true));
    BelowMembers([true], Flat(t.right, true));
    if e.prefix != [] {
      assert e.prefix == [e.prefix[0]] + e.prefix[1..];
    }
  }

  /** With `fill` the list is the set of the widest tight ranges. */
  lemma {:induction false} FilledIsOutermost(t: Trie, e: Entry)
    ensures e in Flat(t, true) <==> Outermost(t, e.prefix, e.asn)
  {
    if t.Leaf? {
      LeafOutermost(t, e.prefix, e.asn);
    } else if v :| Tight(t, v) {
      CollapsesIffTight(t, v);
      TightAlone(t, e.prefix, v, e.asn);
    } else {
      CollapsesIffTight(t, 0);
      JoinedMember(t, e);
      if e.prefix != [] {
        FilledIsOutermost(Half(t, e.prefix[0]), Entry(e.prefix[1..], e.asn));
        OutermostHalf(t, e.prefix, e.asn);
      }
    }
  }

  lemma LeafOutermost(t: Trie, path: Path, asn: nat)
    requires t.Leaf?
    ensures Outermost(t, path, asn) <==> path == [] && asn > 0 && t.asn == asn
  {
    assert HasAsn(Half(t, false), asn) <==> t.asn == asn;
  }

  /** The bits two paths share before they part. */
  function Common(p: Path, q: Path): Path {
    if p != [] && q != [] && p[0] == q[0] then [p[0]] + Common(p[1..], q[1..]) else []
  }

  /**
   * With `fill`, two entries are kept apart only by a third: under the range they share
   * lies an entry of another ASN.
   */
  lemma {:induction false} FilledKeptApart(t: Trie, e: Entry, f: Entry) returns (g: Entry)
    requires e in Flat(t, true) && f in Flat(t, true) && e != f && e.asn == f.asn
    ensures g in Flat(t, true) && Common(e.prefix, f.prefix) <= g.prefix && g.asn != e.asn
  {
    var es := Below([false], Flat(t.left, true)) + Below([true], Flat(t.right, true));
    assert Flat(t, true) == es;
    JoinedMember(t, e);
    JoinedMember(t, f);
    if e.prefix[0] == f.prefix[0] {
      var bit := e.prefix[0];
      var deep := FilledKeptApart(Half(t, bit), Entry(e.prefix[1..], e.asn), Entry(f.prefix[1..], f.asn));
      g := Entry([bit] + deep.prefix, deep.asn);
      JoinedMember(t, g);
    } else {
      assert !OneAsn(es);
      var i, j :| 0 <= i < |es| && 0 <= j < |es| && es[i] == e && es[j] == f;
      var k :| 0 <= k < |es| && es[k].asn != es[0].asn;
      g := if es[0].asn != e.asn then es[0] else es[k];
    }
  }

  /** One entry is left exactly when one ASN is assigned. */
  lemma FilledSoleEntry(t: Trie)
    ensures |Flat(t, true)| == 1 <==> exists asn :: asn > 0 && HasAsn(t, asn) && OnlyAsn(t, asn)
  {
    if |Flat(t, true)| == 1 {
      var sole := Flat(t, true)[0];
      assert sole in Flat(t, true);
      forall a ensures a > 0 && HasAsn(t, a) <==> a == sole.asn {
        FlatAsns(t, true, a);
      }
      assert HasAsn(t, sole.asn) && OnlyAsn(t, sole.asn);
    }
    if asn :| asn > 0 && HasAsn(t, asn) && OnlyAsn(t, asn) {
      OnlyAsnFlat(t, asn);
    }
  }

  // ---------------------------------------------------------------- the order of the list

  /** The paths part, the first to 0 and the second to 1. */
  predicate Before(p: Path, q: Path) {
    p != [] && q != [] && if p[0] == q[0] then Before(p[1..], q[1..]) else q[0]
  }

  ghost predicate InAddressOrder(ps: seq<Path>) {
    forall i, j :: 0 <= i < j < |ps| ==> Before(ps[i], ps[j])
  }

  function Prefixes(es: seq<Entry>): (r: seq<Path>)
    ensures |r| == |es|
  {
    seq(|es|, i requires 0 <= i < |es| => es[i].prefix)
  }

  /** The paths of the left half, then those of the right. */
  function Sides(l: seq<Path>, r: seq<Path>): (ps: seq<Path>)
    ensures |ps| == |l| + |r|
  {
    seq(|l|, i requires 0 <= i < |l| => [false] + l[i]) + seq(|r|, i requires 0 <= i < |r| => [true] + r[i])
  }

  lemma BeforeStep(bit: bool, p: Path, q: Path)
    ensures Before([bit] + p, [bit] + q) <==> Before(p, q)
  {
    assert ([bit] + p)[1..] == p && ([bit] + q)[1..] == q;
  }

  lemma SidesInOrder(l: seq<Path>, r: seq<Path>)
    requires InAddressOrder(l) && InAddressOrder(r)
    ensures InAddressOrder(Sides(l, r))
  {
    var ps := Sides(l, r);
    forall i, j | 0 <= i < j < |ps| ensures Before(ps[i], ps[j]) {
      if j < |l| {
        BeforeStep(false, l[i], l[j]);
      } else if i >= |l| {
        BeforeStep(true, r[i - |l|], r[j - |l|]);
      }
    }
  }

  /** The list ascends through the address space. */
  lemma {:induction false} FlatInOrder(t: Trie, fill: bool)
    ensures InAddressOrder(Prefixes(Flat(t, fill)))
  {
    if t.Branch? {
      FlatInOrder(t.left, fill);
      FlatInOrder(t.right, fill);
      var joined := Below([false], Flat(t.left, fill)) + Below([true], Flat(t.right, fill));
      SidesInOrder(Prefixes(Flat(t.left, fill)), Prefixes(Flat(t.right, fill)));
      assert Prefixes(joined) == Sides(Prefixes(Flat(t.left, fill)), Prefixes(Flat(t.right, fill)));
    }
  }
}
