/** Lists of prefix assignments and the map they build: longest prefix, then last entry, wins. */
module Entries {
  import opened Wrappers
  import opened Ordering
  import opened Tries

  datatype Entry = Entry(prefix: Path, asn: nat)

  /** Applying assignments one after the other. */
  function ApplyAll(t: Trie, es: seq<Entry>): Trie
    decreases es
  {
    if es == [] then t else ApplyAll(Assign(t, es[0].prefix, es[0].asn), es[1..])
  }

  predicate NoLonger(e: Entry, f: Entry) {
    |e.prefix| <= |f.prefix|
  }

  /** The stable sort by prefix length. */
  function ByLength(es: seq<Entry>): seq<Entry> {
    SortBy(NoLonger, es)
  }

  function UpdateAll(t: Trie, es: seq<Entry>): Trie {
    ApplyAll(t, ByLength(es))
  }

  /** The trie a list builds on top of a range that already maps to `ambient`. */
  function Rebuild(ambient: nat, es: seq<Entry>): Trie {
    UpdateAll(Leaf(ambient), es)
  }

  // ---------------------------------------------------------------- the sort

  ghost predicate Ascending(es: seq<Entry>) {
    InOrder(NoLonger, es)
  }

  /** The entries of one prefix length, in list order. */
  function OfLength(es: seq<Entry>, n: nat): seq<Entry> {
    if es == [] then []
    else (if |es[0].prefix| == n then [es[0]] else []) + OfLength(es[1..], n)
  }

  lemma OfLengthFirst(e: Entry, es: seq<Entry>, n: nat)
    ensures OfLength([e] + es, n) == (if |e.prefix| == n then [e] else []) + OfLength(es, n)
  {
    assert ([e] + es)[1..] == es;
  }

  lemma {:induction false} InsertStable(e: Entry, es: seq<Entry>, n: nat)
    ensures OfLength(InsertInto(NoLonger, e, es), n) == OfLength([e] + es, n)
  {
    if es != [] && !NoLonger(e, es[0]) {
      InsertStable(e, es[1..], n);
      OfLengthFirst(e, es[1..], n);
      OfLengthFirst(e, es, n);
      OfLengthFirst(es[0], InsertInto(NoLonger, e, es[1..]), n);
    }
  }

  lemma {:induction false} SortStable(es: seq<Entry>, n: nat)
    ensures OfLength(ByLength(es), n) == OfLength(es, n)
  {
    if es != [] {
      SortStable(es[1..], n);
      InsertStable(es[0], ByLength(es[1..]), n);
      OfLengthFirst(es[0], ByLength(es[1..]), n);
    }
  }

  /** `ByLength` is the stable sort: ascending, a permutation, and equal lengths keep their order. */
  lemma ByLengthIsStableSort(es: seq<Entry>)
    ensures Ascending(ByLength(es)) && multiset(ByLength(es)) == multiset(es)
    ensures forall x :: x in ByLength(es) <==> x in es
    ensures forall n :: OfLength(ByLength(es), n) == OfLength(es, n)
  {
    SortBySorts(NoLonger, es);
    forall n ensures OfLength(ByLength(es), n) == OfLength(es, n) {
      SortStable(es, n);
    }
  }

  // ---------------------------------------------------------------- longest prefix match

  /** Position `i` holds the longest prefix of `path`, the last one among equals. */
  ghost predicate Winner(es: seq<Entry>, path: Path, i: int) {
    && 0 <= i < |es| && es[i].prefix <= path
    && forall j :: 0 <= j < |es| && es[j].prefix <= path ==>
         |es[j].prefix| < |es[i].prefix| || (|es[j].prefix| == |es[i].prefix| && j <= i)
  }

  function BestMatch(es: seq<Entry>, path: Path): Option<Entry> {
    if es == [] then None
    else
      var rest := BestMatch(es[1..], path);
      if es[0].prefix <= path && (rest.None? || |rest.value.prefix| < |es[0].prefix|) then Some(es[0])
      else rest
  }

  lemma {:induction false} BestMatchSound(es: seq<Entry>, path: Path)
    ensures BestMatch(es, path).None? ==> forall e :: e in es ==> !(e.prefix <= path)
    ensures var b := BestMatch(es, path);
      b.Some? ==> b.value in es && b.value.prefix <= path &&
                  forall e :: e in es && e.prefix <= path ==> |e.prefix| <= |b.value.prefix|
  {
    if es != [] {
      BestMatchSound(es[1..], path);
      assert es == [es[0]] + es[1..];
    }
  }

  lemma {:induction false} WinnerIsBestMatch(es: seq<Entry>, path: Path, i: int)
    requires Winner(es, path, i)
    ensures BestMatch(es, path) == Some(es[i])
  {
    BestMatchSound(es[1..], path);
    if i == 0 {
      assert forall e :: e in es[1..] && e.prefix <= path ==> |e.prefix| < |es[0].prefix|;
    } else {
      assert forall j :: 0 <= j < |es[1..]| ==> es[1..][j] == es[j + 1];
      assert Winner(es[1..], path, i - 1);
      WinnerIsBestMatch(es[1..], path, i - 1);
    }
  }

  lemma {:induction false} WinnerExists(es: seq<Entry>, path: Path)
    requires BestMatch(es, path).Some?
    ensures exists i :: Winner(es, path, i)
  {
    if BestMatch(es[1..], path).Some? {
      WinnerExists(es[1..], path);
      var i :| Winner(es[1..], path, i);
      assert forall j :: 0 <= j < |es[1..]| ==> es[1..][j] == es[j + 1];
      WinnerIsBestMatch(es[1..], path, i);
      if BestMatch(es, path) == BestMatch(es[1..], path) && !(es[0].prefix <= path && |es[0].prefix| > |es[i + 1].prefix|) {
        assert Winner(es, path, i + 1);
      } else {
        assert forall j :: 1 <= j < |es| ==> es[j] == es[1..][j - 1];
        assert Winner(es, path, 0);
      }
    } else {
      BestMatchSound(es[1..], path);
      assert forall j :: 1 <= j < |es| ==> es[j] in es[1..];
      assert Winner(es, path, 0);
    }
  }

  lemma BestMatchFirst(e: Entry, es: seq<Entry>, path: Path)
    ensures BestMatch([e] + es, path) ==
      var rest := BestMatch(es, path);
      if e.prefix <= path && (rest.None? || |rest.value.prefix| < |e.prefix|) then Some(e) else rest
  {
    assert ([e] + es)[1..] == es;
  }

  lemma {:induction false} InsertKeepsBestMatch(e: Entry, es: seq<Entry>, path: Path)
    ensures BestMatch(InsertInto(NoLonger, e, es), path) == BestMatch([e] + es, path)
  {
    if es != [] && !NoLonger(e, es[0]) {
      InsertKeepsBestMatch(e, es[1..], path);
      BestMatchFirst(e, es[1..], path);
      BestMatchFirst(e, es, path);
      BestMatchFirst(es[0], InsertInto(NoLonger, e, es[1..]), path);
    }
  }

  lemma {:induction false} SortKeepsBestMatch(es: seq<Entry>, path: Path)
    ensures BestMatch(ByLength(es), path) == BestMatch(es, path)
  {
    if es != [] {
      SortKeepsBestMatch(es[1..], path);
      InsertKeepsBestMatch(es[0], ByLength(es[1..]), path);
      BestMatchFirst(es[0], ByLength(es[1..]), path);
    }
  }

  /** No entry lies strictly inside the range of `path`, so the path has one answer. */
  ghost predicate Resolves(es: seq<Entry>, path: Path) {
    forall e :: e in es ==> !(path < e.prefix)
  }

  function Answer(t: Trie, es: seq<Entry>, path: Path): Option<nat> {
    var best := BestMatch(es, path);
    if best.Some? then Some(best.value.asn) else Lookup(t, path)
  }

  lemma {:induction false} LookupAscending(t: Trie, es: seq<Entry>, path: Path)
    requires Canonical(t) && Ascending(es) && Resolves(es, path)
    ensures Canonical(ApplyAll(t, es))
    ensures Lookup(ApplyAll(t, es), path) == Answer(t, es, path)
    decreases es
  {
    if es != [] {
      assert es == [es[0]] + es[1..];
      AssignCanonical(t, es[0].prefix, es[0].asn);
      LookupAfterAssign(t, es[0].prefix, es[0].asn, path);
      BestMatchSound(es[1..], path);
      assert forall e :: e in es[1..] ==> |es[0].prefix| <= |e.prefix|;
      LookupAscending(Assign(t, es[0].prefix, es[0].asn), es[1..], path);
    }
  }

  lemma LookupUpdated(t: Trie, es: seq<Entry>, path: Path)
    requires Canonical(t) && Resolves(es, path)
    ensures Lookup(UpdateAll(t, es), path) == Answer(t, es, path)
  {
    ByLengthIsStableSort(es);
    LookupAscending(t, ByLength(es), path);
    SortKeepsBestMatch(es, path);
  }

  lemma {:induction false} ApplyCanonical(t: Trie, es: seq<Entry>)
    requires Canonical(t)
    ensures Canonical(ApplyAll(t, es))
    decreases es
  {
    if es != [] {
      AssignCanonical(t, es[0].prefix, es[0].asn);
      ApplyCanonical(Assign(t, es[0].prefix, es[0].asn), es[1..]);
    }
  }

  lemma UpdateCanonical(t: Trie, es: seq<Entry>)
    requires Canonical(t)
    ensures Canonical(UpdateAll(t, es))
  {
    ApplyCanonical(t, ByLength(es));
  }

  /**
   * Bulk update is longest-prefix match with the last entry winning among equal
   * prefixes, over whatever the map held before.
   */
  lemma UpdateIsLongestPrefixMatch(t: Trie, es: seq<Entry>, path: Path)
    requires Canonical(t) && Resolves(es, path)
    ensures Canonical(UpdateAll(t, es))
    ensures forall i :: Winner(es, path, i) ==> Lookup(UpdateAll(t, es), path) == Some(es[i].asn)
    ensures (forall e :: e in es ==> !(e.prefix <= path)) ==> Lookup(UpdateAll(t, es), path) == Lookup(t, path)
    ensures (exists e :: e in es && e.prefix <= path) ==> exists i :: Winner(es, path, i)
  {
    UpdateCanonical(t, es);
    LookupUpdated(t, es, path);
    BestMatchSound(es, path);
    forall i | Winner(es, path, i) ensures BestMatch(es, path) == Some(es[i]) {
      WinnerIsBestMatch(es, path, i);
    }
    if BestMatch(es, path).Some? {
      WinnerExists(es, path);
    }
  }

  // ---------------------------------------------------------------- order does not matter

  /** One prefix, one ASN. */
  ghost predicate Consistent(es: seq<Entry>) {
    forall e, f :: e in es && f in es && e.prefix == f.prefix ==> e.asn == f.asn
  }

  function Widest(es: seq<Entry>): nat {
    if es == [] then 0
    else if |es[0].prefix| > Widest(es[1..]) then |es[0].prefix| else Widest(es[1..])
  }

  lemma {:induction false} WidestBounds(es: seq<Entry>)
    ensures forall e :: e in es ==> |e.prefix| <= Widest(es)
  {
    if es != [] {
      WidestBounds(es[1..]);
      assert es == [es[0]] + es[1..];
    }
  }

  /** Consistent lists with the same members build the same map, in any order and with any repeats. */
  lemma OrderIrrelevant(t: Trie, es: seq<Entry>, fs: seq<Entry>)
    requires Canonical(t) && Consistent(es) && SameMembers(es, fs)
    ensures UpdateAll(t, es) == UpdateAll(t, fs)
  {
    var a, b := UpdateAll(t, es), UpdateAll(t, fs);
    var width := Max(Max(Depth(a), Depth(b)), Widest(es));
    UpdateCanonical(t, es);
    UpdateCanonical(t, fs);
    WidestBounds(es);
    forall path: Path | |path| == width ensures Lookup(a, path) == Lookup(b, path) {
      LookupUpdated(t, es, path);
      LookupUpdated(t, fs, path);
      BestMatchSound(es, path);
      BestMatchSound(fs, path);
      assert BestMatch(fs, path).Some? ==> BestMatch(fs, path).value in es;
      if BestMatch(es, path).Some? {
        var e, f := BestMatch(es, path).value, BestMatch(fs, path).value;
        assert e in fs && f in es;
        assert e.prefix == path[..|e.prefix|] && f.prefix == path[..|f.prefix|];
      }
    }
    AddressesDetermineTrie(a, b, width);
  }

  // ---------------------------------------------------------------- assignments bring in no other ASN

  lemma {:induction false} AssignAsns(t: Trie, prefix: Path, asn: nat, v: nat)
    requires HasAsn(Assign(t, prefix, asn), v)
    ensures HasAsn(t, v) || v == asn
    decreases |prefix|
  {
    if prefix != [] && HasAsn(Assign(Half(t, prefix[0]), prefix[1..], asn), v) {
      AssignAsns(Half(t, prefix[0]), prefix[1..], asn, v);
    }
  }

  lemma {:induction false} ApplyAsns(t: Trie, es: seq<Entry>, v: nat)
    requires HasAsn(ApplyAll(t, es), v)
    ensures HasAsn(t, v) || exists e :: e in es && e.asn == v
    decreases es
  {
    if es != [] {
      ApplyAsns(Assign(t, es[0].prefix, es[0].asn), es[1..], v);
      if HasAsn(Assign(t, es[0].prefix, es[0].asn), v) {
        AssignAsns(t, es[0].prefix, es[0].asn, v);
        assert es[0] in es;
      } else {
        var e :| e in es[1..] && e.asn == v;
        assert e in es;
      }
    }
  }

  // ---------------------------------------------------------------- one level of the rebuilt trie

  /** The last entry for the whole range, or else what was there. */
  function RootAsn(ambient: nat, es: seq<Entry>): nat
    decreases es
  {
    if es == [] then ambient
    else RootAsn(if es[0].prefix == [] then es[0].asn else ambient, es[1..])
  }

  function Stripped(e: Entry, bit: bool): seq<Entry> {
    if e.prefix != [] && e.prefix[0] == bit then [Entry(e.prefix[1..], e.asn)] else []
  }

  /** The entries strictly inside one half, as seen from that half. */
  function Inside(es: seq<Entry>, bit: bool): seq<Entry> {
    if es == [] then [] else Stripped(es[0], bit) + Inside(es[1..], bit)
  }

  lemma StrippedMember(x: Entry, bit: bool, e: Entry)
    ensures e in Stripped(x, bit) <==> Entry([bit] + e.prefix, e.asn) == x
  {
    assert ([bit] + e.prefix)[1..] == e.prefix;
    if x.prefix != [] && x.prefix[0] == bit {
      assert x.prefix == [bit] + x.prefix[1..];
    }
  }

  lemma {:induction false} InsideMember(es: seq<Entry>, bit: bool, e: Entry)
    ensures e in Inside(es, bit) <==> Entry([bit] + e.prefix, e.asn) in es
  {
    if es != [] {
      InsideMember(es[1..], bit, e);
      StrippedMember(es[0], bit, e);
      assert es == [es[0]] + es[1..];
    }
  }

  lemma {:induction false} InsideCount(es: seq<Entry>)
    ensures |Inside(es, false)| + |Inside(es, true)| <= |es|
    ensures (exists e :: e in es && e.prefix == []) ==> |Inside(es, false)| + |Inside(es, true)| < |es|
  {
    if es != [] {
      InsideCount(es[1..]);
      assert es == [es[0]] + es[1..];
    }
  }

  lemma InsideMembers(es: seq<Entry>, bit: bool)
    ensures forall e :: e in Inside(es, bit) <==> Entry([bit] + e.prefix, e.asn) in es
    ensures |Inside(es, false)| + |Inside(es, true)| <= |es|
    ensures (exists e :: e in es && e.prefix == []) ==> |Inside(es, false)| + |Inside(es, true)| < |es|
  {
    InsideCount(es);
    forall e ensures e in Inside(es, bit) <==> Entry([bit] + e.prefix, e.asn) in es {
      InsideMember(es, bit, e);
    }
  }

  lemma {:induction false} RootAsnFound(ambient: nat, es: seq<Entry>)
    ensures RootAsn(ambient, es) == ambient || Entry([], RootAsn(ambient, es)) in es
    ensures (forall e :: e in es ==> e.prefix != []) ==> RootAsn(ambient, es) == ambient
    decreases es
  {
    if es != [] {
      RootAsnFound(if es[0].prefix == [] then es[0].asn else ambient, es[1..]);
      assert es == [es[0]] + es[1..];
    }
  }

  function MatchAsn(ambient: nat, es: seq<Entry>, path: Path): nat {
    var best := BestMatch(es, path);
    if best.Some? then best.value.asn else ambient
  }

  /** What is found under `bit` is found among all, one level up. */
  ghost predicate FoundBelow(bit: bool, deep: Option<Entry>, all: Option<Entry>) {
    if deep.Some? then all == Some(Entry([bit] + deep.value.prefix, deep.value.asn))
    else all.None? || all.value.prefix == []
  }

  lemma InsideFirst(e: Entry, es: seq<Entry>, bit: bool)
    ensures Inside([e] + es, bit) == Stripped(e, bit) + Inside(es, bit)
  {
    assert ([e] + es)[1..] == es;
  }

  lemma DeepFirst(e: Entry, rest: seq<Entry>, bit: bool, path: Path)
    requires FoundBelow(bit, BestMatch(Inside(rest, bit), path), BestMatch(rest, [bit] + path))
    ensures FoundBelow(bit, BestMatch(Inside([e] + rest, bit), path), BestMatch([e] + rest, [bit] + path))
  {
    BestMatchFirst(e, rest, [bit] + path);
    InsideFirst(e, rest, bit);
    if Stripped(e, bit) == [] {
      assert Inside([e] + rest, bit) == Inside(rest, bit);
      assert e.prefix != [] ==> !(e.prefix <= [bit] + path);
    } else {
      var inner := Entry(e.prefix[1..], e.asn);
      BestMatchFirst(inner, Inside(rest, bit), path);
      assert e.prefix == [bit] + inner.prefix;
      assert e.prefix <= [bit] + path <==> inner.prefix <= path;
    }
  }

  /** Below a bit the match is found inside that half, or else at the root. */
  lemma {:induction false} DeepMatch(es: seq<Entry>, bit: bool, path: Path)
    ensures FoundBelow(bit, BestMatch(Inside(es, bit), path), BestMatch(es, [bit] + path))
  {
    if es != [] {
      DeepMatch(es[1..], bit, path);
      DeepFirst(es[0], es[1..], bit, path);
      assert es == [es[0]] + es[1..];
    }
  }

  lemma {:induction false} RootMatch(ambient: nat, es: seq<Entry>, bit: bool, path: Path)
    requires BestMatch(Inside(es, bit), path).None?
    ensures MatchAsn(ambient, es, [bit] + path) == RootAsn(ambient, es)
    decreases es
  {
    if es != [] {
      var e, rest := es[0], es[1..];
      DeepMatch(es, bit, path);
      DeepMatch(rest, bit, path);
      assert BestMatch(Inside(rest, bit), path).None? by {
        if Stripped(e, bit) != [] {
          assert Inside(es, bit)[1..] == Inside(rest, bit);
        }
      }
      RootMatch(if e.prefix == [] then e.asn else ambient, rest, bit, path);
    }
  }

  lemma MatchInside(ambient: nat, es: seq<Entry>, bit: bool, path: Path)
    ensures MatchAsn(ambient, es, [bit] + path) == MatchAsn(RootAsn(ambient, es), Inside(es, bit), path)
  {
    DeepMatch(es, bit, path);
    if BestMatch(Inside(es, bit), path).None? {
      RootMatch(ambient, es, bit, path);
    }
  }

  lemma RebuildLookup(ambient: nat, es: seq<Entry>, path: Path)
    requires |path| >= Widest(es)
    ensures Lookup(Rebuild(ambient, es), path) == Some(MatchAsn(ambient, es, path))
  {
    WidestBounds(es);
    LookupUpdated(Leaf(ambient), es, path);
  }

  lemma InsideNarrower(es: seq<Entry>, bit: bool)
    ensures Widest(Inside(es, bit)) <= Widest(es)
  {
    WidestBounds(es);
    forall e | e in Inside(es, bit) ensures |e.prefix| <= Widest(es) {
      InsideMember(es, bit, e);
      assert |Entry([bit] + e.prefix, e.asn).prefix| <= Widest(es);
    }
    WidestLeast(Inside(es, bit), Widest(es));
  }

  lemma {:induction false} WidestLeast(es: seq<Entry>, width: nat)
    requires forall e :: e in es ==> |e.prefix| <= width
    ensures Widest(es) <= width
  {
    if es != [] {
      WidestLeast(es[1..], width);
    }
  }

  /**
   * The equation every later proof about lists of assignments stands on: the
   * rebuilt trie is the join of the two halves rebuilt under the root's ASN.
   */
  lemma RebuildUnfold(ambient: nat, es: seq<Entry>)
    ensures var root := RootAsn(ambient, es);
      Rebuild(ambient, es) == Merge(Rebuild(root, Inside(es, false)), Rebuild(root, Inside(es, true)))
  {
    var root := RootAsn(ambient, es);
    var whole := Rebuild(ambient, es);
    var l, r := Rebuild(root, Inside(es, false)), Rebuild(root, Inside(es, true));
    RebuildCanonical(ambient, es);
    RebuildCanonical(root, Inside(es, false));
    RebuildCanonical(root, Inside(es, true));
    var width := 1 + Max(Max(Depth(whole), Max(Depth(l), Depth(r))), Widest(es));
    forall path: Path | |path| == width ensures Lookup(whole, path) == Lookup(Merge(l, r), path) {
      var bit, rest := path[0], path[1..];
      assert path == [bit] + rest;
      InsideNarrower(es, bit);
      RebuildLookup(ambient, es, path);
      RebuildLookup(root, Inside(es, bit), rest);
      MatchInside(ambient, es, bit, rest);
      LookupHalf(Merge(l, r), path);
    }
    AddressesDetermineTrie(whole, Merge(l, r), width);
  }

  lemma RebuildCanonical(ambient: nat, es: seq<Entry>)
    ensures Canonical(Rebuild(ambient, es))
  {
    UpdateCanonical(Leaf(ambient), es);
  }

  // ---------------------------------------------------------------- lists given half by half

  /** The same entries, seen from `path` levels further up. */
  function Below(path: Path, es: seq<Entry>): seq<Entry> {
    seq(|es|, i requires 0 <= i < |es| => Entry(path + es[i].prefix, es[i].asn))
  }

  lemma BelowBelow(outer: Path, inner: Path, es: seq<Entry>)
    ensures Below(outer, Below(inner, es)) == Below(outer + inner, es)
  {
    assert forall i :: 0 <= i < |es| ==> outer + (inner + es[i].prefix) == (outer + inner) + es[i].prefix;
  }

  lemma BelowAppend(path: Path, es: seq<Entry>, fs: seq<Entry>)
    ensures Below(path, es + fs) == Below(path, es) + Below(path, fs)
  {
  }

  lemma BelowNothing(es: seq<Entry>)
    ensures Below([], es) == es
  {
    assert forall i :: 0 <= i < |es| ==> [] + es[i].prefix == es[i].prefix;
  }

  lemma BelowMembers(path: Path, es: seq<Entry>)
    ensures forall e :: e in es ==> Entry(path + e.prefix, e.asn) in Below(path, es)
    ensures forall e :: e in Below(path, es) ==> path <= e.prefix && Entry(e.prefix[|path|..], e.asn) in es
  {
    forall e | e in es ensures Entry(path + e.prefix, e.asn) in Below(path, es) {
      var i :| 0 <= i < |es| && es[i] == e;
      assert Below(path, es)[i] == Entry(path + e.prefix, e.asn);
    }
    forall e | e in Below(path, es) ensures path <= e.prefix && Entry(e.prefix[|path|..], e.asn) in es {
      var i :| 0 <= i < |es| && Below(path, es)[i] == e;
      assert e.prefix[|path|..] == es[i].prefix;
    }
  }

  lemma {:induction false} InsideAppend(es: seq<Entry>, fs: seq<Entry>, bit: bool)
    ensures Inside(es + fs, bit) == Inside(es, bit) + Inside(fs, bit)
  {
    if es == [] {
      assert es + fs == fs;
    } else {
      InsideAppend(es[1..], fs, bit);
      assert (es + fs)[1..] == es[1..] + fs && (es + fs)[0] == es[0];
      assert Inside(es + fs, bit) == Stripped(es[0], bit) + (Inside(es[1..], bit) + Inside(fs, bit));
    }
  }

  lemma {:induction false} InsideBelow(es: seq<Entry>, bit: bool)
    ensures Inside(Below([bit], es), bit) == es && Inside(Below([bit], es), !bit) == []
  {
    if es != [] {
      InsideBelow(es[1..], bit);
      assert Below([bit], es)[1..] == Below([bit], es[1..]);
      assert ([bit] + es[0].prefix)[1..] == es[0].prefix;
    }
  }

  lemma InsideHalves(l: seq<Entry>, r: seq<Entry>)
    ensures Inside(Below([false], l) + Below([true], r), false) == l
    ensures Inside(Below([false], l) + Below([true], r), true) == r
  {
    InsideAppend(Below([false], l), Below([true], r), false);
    InsideAppend(Below([false], l), Below([true], r), true);
    InsideBelow(l, false);
    InsideBelow(r, true);
  }

  lemma RebuildHalves(ambient: nat, l: seq<Entry>, r: seq<Entry>)
    ensures Rebuild(ambient, Below([false], l) + Below([true], r)) == Merge(Rebuild(ambient, l), Rebuild(ambient, r))
  {
    var es := Below([false], l) + Below([true], r);
    InsideHalves(l, r);
    RootAsnFound(ambient, es);
    assert forall e :: e in es ==> e.prefix != [];
    RebuildUnfold(ambient, es);
  }

  /** An entry for the whole range in front of deeper ones replaces the ambient ASN. */
  lemma RebuildCovered(ambient: nat, asn: nat, deeper: seq<Entry>)
    requires forall e :: e in deeper ==> e.prefix != []
    ensures Rebuild(ambient, [Entry([], asn)] + deeper) == Rebuild(asn, deeper)
  {
    var es := [Entry([], asn)] + deeper;
    assert es[1..] == deeper;
    RootAsnFound(asn, deeper);
    RebuildUnfold(ambient, es);
    RebuildUnfold(asn, deeper);
    assert Inside(es, false) == Inside(deeper, false) && Inside(es, true) == Inside(deeper, true);
  }
}
