/** Differences between two maps, and why a difference is a patch. */
module Diffs {
  import opened Wrappers
  import opened Ordering
  import opened Tries
  import opened Entries
  import opened FlatEntries

  /** One range on which two maps each give one answer, and not the same. */
  datatype Change = Change(prefix: Path, before: nat, after: nat)

  function ChangesBelow(path: Path, cs: seq<Change>): seq<Change> {
    seq(|cs|, i requires 0 <= i < |cs| => Change(path + cs[i].prefix, cs[i].before, cs[i].after))
  }

  /** The changes that lead from `a` to `b`, with prefixes relative to the node. */
  function Diff(a: Trie, b: Trie): seq<Change>
    decreases a, b
  {
    if a.Leaf? && b.Leaf? then
      if a.asn != b.asn then [Change([], a.asn, b.asn)] else []
    else
      ChangesBelow([false], Diff(Half(a, false), Half(b, false))) +
      ChangesBelow([true], Diff(Half(a, true), Half(b, true)))
  }

  /** The recursion itself, with its running prefix and output list. */
  method RunDiff(at: Path, a: Trie, b: Trie, before: seq<Change>) returns (prefix: Path, out: seq<Change>)
    ensures prefix == at && out == before + ChangesBelow(at, Diff(a, b))
    decreases a, b
  {
    prefix, out := at, before;
    if a.Leaf? && b.Leaf? {
      if a.asn != b.asn {
        out := out + [Change(prefix, a.asn, b.asn)];
        assert at + [] == at;
      }
    } else {
      var aLeft := if a.Leaf? then a else a.left;
      var aRight := if a.Leaf? then a else a.right;
      var bLeft := if b.Leaf? then b else b.left;
      var bRight := if b.Leaf? then b else b.right;
      prefix := prefix + [false];
      prefix, out := RunDiff(prefix, aLeft, bLeft, out);
      prefix := prefix[..|prefix| - 1] + [true];
      assert prefix == at + [true];
      prefix, out := RunDiff(prefix, aRight, bRight, out);
      prefix := prefix[..|prefix| - 1];
      ChangesOut(at, before, Diff(aLeft, bLeft), Diff(aRight, bRight));
    }
  }

  lemma ChangesJoined(at: Path, l: seq<Change>, r: seq<Change>)
    ensures ChangesBelow(at, ChangesBelow([false], l) + ChangesBelow([true], r)) ==
            ChangesBelow(at + [false], l) + ChangesBelow(at + [true], r)
  {
    ChangesNested(at, [false], l);
    ChangesNested(at, [true], r);
    ChangesAppend(at, ChangesBelow([false], l), ChangesBelow([true], r));
  }

  lemma ChangesOut(at: Path, before: seq<Change>, l: seq<Change>, r: seq<Change>)
    ensures before + ChangesBelow(at + [false], l) + ChangesBelow(at + [true], r) ==
            before + ChangesBelow(at, ChangesBelow([false], l) + ChangesBelow([true], r))
  {
    ChangesJoined(at, l, r);
  }

  lemma ChangesAppend(at: Path, l: seq<Change>, r: seq<Change>)
    ensures ChangesBelow(at, l + r) == ChangesBelow(at, l) + ChangesBelow(at, r)
  {
  }

  lemma ChangesNested(outer: Path, inner: Path, cs: seq<Change>)
    ensures ChangesBelow(outer, ChangesBelow(inner, cs)) == ChangesBelow(outer + inner, cs)
  {
    assert forall i :: 0 <= i < |cs| ==> outer + (inner + cs[i].prefix) == (outer + inner) + cs[i].prefix;
  }

  /** A change as an assignment of the new answer. */
  function Patch(c: Change): Entry {
    Entry(c.prefix, c.after)
  }

  // ---------------------------------------------------------------- membership, half by half

  lemma BelowChange(bit: bool, cs: seq<Change>, c: Change)
    ensures c in ChangesBelow([bit], cs) <==>
      c.prefix != [] && c.prefix[0] == bit && Change(c.prefix[1..], c.before, c.after) in cs
  {
    if c in ChangesBelow([bit], cs) {
      var i :| 0 <= i < |cs| && ChangesBelow([bit], cs)[i] == c;
      assert c.prefix[1..] == cs[i].prefix;
    }
    if c.prefix != [] && c.prefix[0] == bit && Change(c.prefix[1..], c.before, c.after) in cs {
      var i :| 0 <= i < |cs| && cs[i] == Change(c.prefix[1..], c.before, c.after);
      assert [bit] + c.prefix[1..] == c.prefix;
      assert ChangesBelow([bit], cs)[i] == c;
    }
  }

  lemma DiffHalf(a: Trie, b: Trie, c: Change)
    requires a.Branch? || b.Branch?
    ensures c in Diff(a, b) <==>
      c.prefix != [] &&
      Change(c.prefix[1..], c.before, c.after) in Diff(Half(a, c.prefix[0]), Half(b, c.prefix[0]))
  {
    BelowChange(false, Diff(Half(a, false), Half(b, false)), c);
    BelowChange(true, Diff(Half(a, true), Half(b, true)), c);
  }

  // ---------------------------------------------------------------- what a change says

  /** Every change names a range where each map has one answer, and the answers differ. */
  lemma {:induction false} ChangeIsReal(a: Trie, b: Trie, c: Change)
    requires c in Diff(a, b)
    ensures Lookup(a, c.prefix) == Some(c.before) && Lookup(b, c.prefix) == Some(c.after)
    ensures c.before != c.after
    decreases a, b
  {
    if a.Branch? || b.Branch? {
      DiffHalf(a, b, c);
      ChangeIsReal(Half(a, c.prefix[0]), Half(b, c.prefix[0]), Change(c.prefix[1..], c.before, c.after));
    }
  }

  /** Every address on which the maps differ lies in some change. */
  lemma {:induction false} EveryDifferenceListed(a: Trie, b: Trie, path: Path)
    requires Lookup(a, path).Some? && Lookup(b, path).Some? && Lookup(a, path) != Lookup(b, path)
    ensures exists c :: c in Diff(a, b) && c.prefix <= path
    decreases a, b
  {
    if a.Leaf? && b.Leaf? {
      assert Diff(a, b)[0].prefix <= path;
    } else {
      EveryDifferenceListed(Half(a, path[0]), Half(b, path[0]), path[1..]);
      var c :| c in Diff(Half(a, path[0]), Half(b, path[0])) && c.prefix <= path[1..];
      var lifted := Change([path[0]] + c.prefix, c.before, c.after);
      assert lifted.prefix[1..] == c.prefix;
      DiffHalf(a, b, lifted);
      assert lifted.prefix <= path;
    }
  }

  ghost predicate ChangesApart(cs: seq<Change>) {
    forall i, j :: 0 <= i < j < |cs| ==> Apart(cs[i].prefix, cs[j].prefix)
  }

  lemma ChangesBelowApart(bit: bool, cs: seq<Change>)
    requires ChangesApart(cs)
    ensures ChangesApart(ChangesBelow([bit], cs))
  {
    var b := ChangesBelow([bit], cs);
    forall i, j | 0 <= i < j < |b| ensures Apart(b[i].prefix, b[j].prefix) {
      StepApart(bit, cs[i].prefix, cs[j].prefix);
      StepApart(bit, cs[j].prefix, cs[i].prefix);
    }
  }

  lemma SidesApart(l: seq<Change>, r: seq<Change>)
    requires ChangesApart(l) && ChangesApart(r)
    ensures ChangesApart(ChangesBelow([false], l) + ChangesBelow([true], r))
  {
    ChangesBelowApart(false, l);
    ChangesBelowApart(true, r);
    var bl, br := ChangesBelow([false], l), ChangesBelow([true], r);
    forall i, j | 0 <= i < |bl| && 0 <= j < |br| ensures Apart(bl[i].prefix, br[j].prefix) {
      assert bl[i].prefix[0] == false && br[j].prefix[0] == true;
    }
  }

  /** Changes do not overlap. */
  lemma {:induction false} ChangesDisjoint(a: Trie, b: Trie)
    ensures ChangesApart(Diff(a, b))
    decreases a, b
  {
    if a.Branch? || b.Branch? {
      ChangesDisjoint(Half(a, false), Half(b, false));
      ChangesDisjoint(Half(a, true), Half(b, true));
      SidesApart(Diff(Half(a, false), Half(b, false)), Diff(Half(a, true), Half(b, true)));
    }
  }

  function ChangedPaths(cs: seq<Change>): (r: seq<Path>)
    ensures |r| == |cs|
  {
    seq(|cs|, i requires 0 <= i < |cs| => cs[i].prefix)
  }

  /** Changes ascend through the address space. */
  lemma {:induction false} DiffInOrder(a: Trie, b: Trie)
    ensures InAddressOrder(ChangedPaths(Diff(a, b)))
    decreases a, b
  {
    if a.Branch? || b.Branch? {
      var l, r := Diff(Half(a, false), Half(b, false)), Diff(Half(a, true), Half(b, true));
      DiffInOrder(Half(a, false), Half(b, false));
      DiffInOrder(Half(a, true), Half(b, true));
      SidesInOrder(ChangedPaths(l), ChangedPaths(r));
      assert ChangedPaths(Diff(a, b)) == Sides(ChangedPaths(l), ChangedPaths(r));
    }
  }

  // ---------------------------------------------------------------- a difference is a patch

  /** The list assigns exactly the new answers of the difference, in any order and with any repeats. */
  ghost predicate Patches(es: seq<Entry>, a: Trie, b: Trie) {
    && (forall c :: c in Diff(a, b) ==> Patch(c) in es)
    && (forall e :: e in es ==> exists c :: c in Diff(a, b) && Patch(c) == e)
  }

  lemma InsideOnly(e: Entry, es: seq<Entry>)
    requires e.prefix != []
    ensures var bit := e.prefix[0];
      && Inside([e] + es, bit) == [Entry(e.prefix[1..], e.asn)] + Inside(es, bit)
      && Inside([e] + es, !bit) == Inside(es, !bit)
  {
    assert ([e] + es)[1..] == es;
  }

  lemma AssignHalf(t: Trie, e: Entry)
    requires e.prefix != []
    ensures var bit := e.prefix[0];
      && Half(Assign(t, e.prefix, e.asn), bit) == Assign(Half(t, bit), e.prefix[1..], e.asn)
      && Half(Assign(t, e.prefix, e.asn), !bit) == Half(t, !bit)
  {
  }

  lemma ApplyFirst(t: Trie, e: Entry, es: seq<Entry>)
    ensures ApplyAll(t, [e] + es) == ApplyAll(Assign(t, e.prefix, e.asn), es)
  {
    assert ([e] + es)[1..] == es;
  }

  /** Assignments below the root act on each half separately. */
  lemma {:induction false} ApplyHalves(t: Trie, es: seq<Entry>)
    requires Canonical(t) && forall e :: e in es ==> e.prefix != []
    ensures ApplyAll(t, es) ==
      Merge(ApplyAll(Half(t, false), Inside(es, false)), ApplyAll(Half(t, true), Inside(es, true)))
    decreases es
  {
    if es != [] {
      var e, rest := es[0], es[1..];
      assert es == [e] + rest;
      AssignCanonical(t, e.prefix, e.asn);
      ApplyHalves(Assign(t, e.prefix, e.asn), rest);
      InsideOnly(e, rest);
      AssignHalf(t, e);
      ApplyFirst(Half(t, e.prefix[0]), Entry(e.prefix[1..], e.asn), Inside(rest, e.prefix[0]));
    }
  }

  lemma InsidePatches(es: seq<Entry>, a: Trie, b: Trie, bit: bool)
    requires (a.Branch? || b.Branch?) && Patches(es, a, b)
    ensures Patches(Inside(es, bit), Half(a, bit), Half(b, bit))
  {
    InsideMembers(es, bit);
    forall c | c in Diff(Half(a, bit), Half(b, bit)) ensures Patch(c) in Inside(es, bit) {
      var lifted := Change([bit] + c.prefix, c.before, c.after);
      assert lifted.prefix[1..] == c.prefix;
      DiffHalf(a, b, lifted);
      assert Patch(lifted) in es;
    }
    forall e | e in Inside(es, bit) ensures exists c :: c in Diff(Half(a, bit), Half(b, bit)) && Patch(c) == e {
      var outer := Entry([bit] + e.prefix, e.asn);
      var c :| c in Diff(a, b) && Patch(c) == outer;
      DiffHalf(a, b, c);
      assert c.prefix[1..] == e.prefix;
      assert Patch(Change(c.prefix[1..], c.before, c.after)) == e;
    }
  }

  /** Applying the difference to the first map, in any order, gives the second. */
  lemma {:induction false} DiffPatches(a: Trie, b: Trie, es: seq<Entry>)
    requires Canonical(a) && Canonical(b) && Patches(es, a, b)
    ensures ApplyAll(a, es) == b
    decreases a, b
  {
    if a.Leaf? && b.Leaf? {
      if a.asn == b.asn {
        assert Diff(a, b) == [];
        EmptyOrMember(es);
      } else {
        var change := Change([], a.asn, b.asn);
        assert change in Diff(a, b) && Patch(change) in es;
        ApplyConstant(a, es, b.asn);
      }
    } else {
      forall e | e in es ensures e.prefix != [] {
        var c :| c in Diff(a, b) && Patch(c) == e;
        DiffHalf(a, b, c);
      }
      ApplyHalves(a, es);
      InsidePatches(es, a, b, false);
      InsidePatches(es, a, b, true);
      DiffPatches(Half(a, false), Half(b, false), Inside(es, false));
      DiffPatches(Half(a, true), Half(b, true), Inside(es, true));
    }
  }

  lemma {:induction false} ApplyConstant(t: Trie, es: seq<Entry>, v: nat)
    requires es != [] && forall e :: e in es ==> e == Entry([], v)
    ensures ApplyAll(t, es) == Leaf(v)
    decreases es
  {
    assert es[0] in es && es == [es[0]] + es[1..];
    if |es| > 1 {
      assert forall e :: e in es[1..] ==> e in es;
      ApplyConstant(Leaf(v), es[1..], v);
    }
  }

  /** The bulk update applies a difference just as well. */
  lemma DiffUpdates(a: Trie, b: Trie, es: seq<Entry>)
    requires Canonical(a) && Canonical(b) && Patches(es, a, b)
    ensures UpdateAll(a, es) == b
  {
    ByLengthIsStableSort(es);
    DiffPatches(a, b, ByLength(es));
  }

  /** The difference is empty exactly between equal maps. */
  lemma DiffEmptyIffEqual(a: Trie, b: Trie)
    requires Canonical(a) && Canonical(b)
    ensures Diff(a, b) == [] <==> a == b
  {
    if Diff(a, b) == [] {
      DiffPatches(a, b, []);
    } else if a == b {
      var c := Diff(a, b)[0];
      ChangeIsReal(a, b, c);
    }
  }

  /** The first map extends the second exactly when every change only unassigns. */
  lemma {:induction false} ExtendsIffUnassigns(a: Trie, b: Trie)
    ensures Extends(a, b) <==> forall c :: c in Diff(a, b) ==> c.after == 0
    decreases a, b
  {
    if a.Leaf? && b.Leaf? {
      if a.asn != b.asn {
        assert Diff(a, b)[0] == Change([], a.asn, b.asn);
        assert Change([], a.asn, b.asn) in Diff(a, b);
      }
    } else {
      ExtendsIffUnassigns(Half(a, false), Half(b, false));
      ExtendsIffUnassigns(Half(a, true), Half(b, true));
      ExtendsHalves(a, b);
      if Extends(a, b) {
        forall c | c in Diff(a, b) ensures c.after == 0 {
          DiffHalf(a, b, c);
          assert Change(c.prefix[1..], c.before, c.after) in Diff(Half(a, c.prefix[0]), Half(b, c.prefix[0]));
        }
      } else {
        var bit := Extends(Half(a, false), Half(b, false));
        var c :| c in Diff(Half(a, bit), Half(b, bit)) && c.after != 0;
        var lifted := Change([bit] + c.prefix, c.before, c.after);
        assert lifted.prefix[1..] == c.prefix;
        DiffHalf(a, b, lifted);
      }
    }
  }
}
