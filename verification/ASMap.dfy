/** The map object: a canonical trie that its methods rewrite in place. */
module ASMaps {
  import opened Wrappers
  import opened Bytes
  import opened Ordering
  import opened Tries
  import opened Entries
  import opened FlatEntries
  import opened MinimalEntries
  import opened Diffs
  import opened Wire

  class ASMap {
    var trie: Trie

    ghost predicate Valid()
      reads this
    {
      Canonical(trie)
    }

    constructor ()
      ensures Valid() && trie == Leaf(0)
    {
      trie := Leaf(0);
    }

    /** Rewrites one node: splits a leaf on the way down, merges equal leaves on the way up. */
    static method Rewrite(node: Trie, prefix: Path, asn: nat, offset: nat) returns (r: Trie)
      requires offset <= |prefix|
      ensures r == Assign(node, prefix[offset..], asn)
      decreases |prefix| - offset
    {
      r := node;
      if offset == |prefix| {
        return Leaf(asn);
      }
      if r.Leaf? {
        r := Branch(Leaf(r.asn), Leaf(r.asn));
      }
      assert prefix[offset..][1..] == prefix[offset + 1..];
      if prefix[offset] {
        var right := Rewrite(r.right, prefix, asn, offset + 1);
        r := Branch(r.left, right);
      } else {
        var left := Rewrite(r.left, prefix, asn, offset + 1);
        r := Branch(left, r.right);
      }
      if r.left.Leaf? && r.right.Leaf? && r.left.asn == r.right.asn {
        r := Leaf(r.left.asn);
      }
    }

    method Update(prefix: Path, asn: nat)
      requires Valid()
      modifies this
      ensures Valid() && trie == Assign(old(trie), prefix, asn)
    {
      AssignCanonical(trie, prefix, asn);
      trie := Rewrite(trie, prefix, asn, 0);
      assert prefix[0..] == prefix;
    }

    method UpdateMulti(entries: seq<Entry>)
      requires Valid()
      modifies this
      ensures Valid() && trie == UpdateAll(old(trie), entries)
    {
      var sorted := ByLength(entries);
      var i := 0;
      while i < |sorted|
        invariant 0 <= i <= |sorted| && Valid()
        invariant ApplyAll(trie, sorted[i..]) == UpdateAll(old(trie), entries)
      {
        Update(sorted[i].prefix, sorted[i].asn);
        i := i + 1;
      }
    }

    method Find(path: Path) returns (r: Option<nat>)
      ensures r == Lookup(trie, path)
    {
      var node := trie;
      var i := 0;
      while i < |path|
        invariant 0 <= i <= |path|
        invariant Lookup(node, path[i..]) == Lookup(trie, path)
      {
        match node {
          case Leaf(v) => return Some(v);
          case Branch(left, right) => node := if path[i] then right else left;
        }
        i := i + 1;
      }
      match node {
        case Leaf(v) => r := Some(v);
        case Branch(_, _) => r := None;
      }
    }

    /** The changes that turn this map into `other`. */
    method DiffTo(other: ASMap) returns (out: seq<Change>)
      ensures out == Diff(trie, other.trie)
    {
      var prefix;
      prefix, out := RunDiff([], trie, other.trie, []);
      assert ChangesBelow([], Diff(trie, other.trie)) == Diff(trie, other.trie) by {
        assert forall c: Change :: [] + c.prefix == c.prefix;
      }
    }

    method ToEntries(fill: bool, overlapping: bool) returns (es: seq<Entry>)
      ensures es == if overlapping then Minimal(trie, fill) else Flat(trie, fill)
    {
      if overlapping {
        es := CollectMinimal(trie, fill);
      } else {
        var prefix;
        es, prefix := Collect(trie, [], fill);
        BelowNothing(Flat(trie, fill));
      }
    }

    /** The binary form; None where the encoder aborts on a value out of range. */
    method ToBytes(fill: bool) returns (r: Option<seq<Byte>>)
      ensures r == ToBinary(trie, fill)
    {
      r := Serialize(trie, fill);
    }

    /** Replaces this map by the one the bytes describe; a map that fails to decode changes nothing. */
    method Load(bytes: seq<Byte>) returns (ok: bool)
      requires Valid()
      modifies this
      ensures Valid() && ok == FromBinary(bytes).Some?
      ensures trie == if ok then FromBinary(bytes).value else old(trie)
    {
      var r := Deserialize(bytes);
      ok := r.Some?;
      if ok {
        DecodedMapsReencode(bytes);
        trie := r.value;
      }
    }
  }

  /**
   * All four entry lists rebuild the map on a fresh object: exactly without
   * `fill`, and to an extension of it with `fill`.
   */
  lemma EntriesRoundTrip(t: Trie, fill: bool, overlapping: bool)
    requires Canonical(t)
    ensures var es := if overlapping then Minimal(t, fill) else Flat(t, fill);
      && Meets(UpdateAll(Leaf(0), es), t, fill)
      && Positive(es) && DistinctPrefixes(es)
  {
    if overlapping {
      MinimalRebuilds(t, fill);
    } else {
      FlatRebuilds(t, fill);
      FlatPositive(t, fill);
      FlatIsDisjoint(t, fill);
      var es := Flat(t, fill);
      forall i, j | 0 <= i < j < |es| ensures es[i].prefix != es[j].prefix {
        assert Apart(es[i].prefix, es[j].prefix);
      }
    }
  }

  /** Writing a map, reading it back and rebuilding it from any of its exact forms agree. */
  lemma FormsAgree(t: Trie, es: seq<Entry>)
    requires Canonical(t) && RoundTrips(t, false)
    requires SameMembers(es, Flat(t, false)) || SameMembers(es, Minimal(t, false))
    ensures FromBinary(ToBinary(t, false).value) == Some(UpdateAll(Leaf(0), es))
  {
    if SameMembers(es, Flat(t, false)) {
      EntriesRoundTrip(t, false, false);
      FlatIsDisjoint(t, false);
      ApartConsistent(Flat(t, false));
      OrderIrrelevant(Leaf(0), Flat(t, false), es);
    } else {
      EntriesRoundTrip(t, false, true);
      DistinctConsistent(Minimal(t, false));
      OrderIrrelevant(Leaf(0), Minimal(t, false), es);
    }
    assert Meets(FromBinary(ToBinary(t, false).value).value, t, false);
  }

  lemma DistinctConsistent(es: seq<Entry>)
    requires DistinctPrefixes(es)
    ensures Consistent(es)
  {
  }
}
