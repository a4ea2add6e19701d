/** The prefix trie: its values, the map of addresses it denotes, and the order `extends`. */
module Tries {
  import opened Wrappers

  type Path = seq<bool>

  /** Two ranges with no address in common. */
  predicate Apart(p: Path, q: Path) {
    !(p <= q) && !(q <= p)
  }

  /** ASN 0 marks unassigned space. */
  datatype Trie = Leaf(asn: nat) | Branch(left: Trie, right: Trie)

  /** Joins two halves, merging two equal leaves into one. */
  function Merge(l: Trie, r: Trie): Trie {
    if l.Leaf? && r.Leaf? && l.asn == r.asn then Leaf(l.asn) else Branch(l, r)
  }

  /** No branch has two equal leaf children: what every operation keeps. */
  ghost predicate Canonical(t: Trie) {
    match t
    case Leaf(_) => true
    case Branch(l, r) => Canonical(l) && Canonical(r) && Merge(l, r) == t
  }

  function Depth(t: Trie): nat {
    match t
    case Leaf(_) => 0
    case Branch(l, r) => 1 + if Depth(l) < Depth(r) then Depth(r) else Depth(l)
  }

  /** The half of `t` that a next bit selects; a leaf is its own half. */
  function Half(t: Trie, bit: bool): Trie {
    match t
    case Leaf(_) => t
    case Branch(l, r) => if bit then r else l
  }

  function Lookup(t: Trie, path: Path): Option<nat> {
    match t
    case Leaf(v) => Some(v)
    case Branch(l, r) => if path == [] then None else Lookup(if path[0] then r else l, path[1..])
  }

  /** Assigning one prefix, as a rewrite of the trie value. */
  function Assign(t: Trie, prefix: Path, asn: nat): Trie
    decreases |prefix|
  {
    if prefix == [] then Leaf(asn)
    else if prefix[0] then Merge(Half(t, false), Assign(Half(t, true), prefix[1..], asn))
    else Merge(Assign(Half(t, false), prefix[1..], asn), Half(t, true))
  }

  /** `actual` satisfies every non-zero assignment of `req`. */
  predicate Extends(actual: Trie, req: Trie)
    decreases actual, req
  {
    match req
    case Leaf(v) =>
      v == 0 || (match actual
                 case Leaf(a) => a == v
                 case Branch(l, r) => Extends(l, req) && Extends(r, req))
    case Branch(rl, rr) =>
      match actual
      case Leaf(_) => Extends(actual, rl) && Extends(actual, rr)
      case Branch(al, ar) => Extends(al, rl) && Extends(ar, rr)
  }

  ghost predicate HasAsn(t: Trie, v: nat) {
    match t
    case Leaf(a) => a == v
    case Branch(l, r) => HasAsn(l, v) || HasAsn(r, v)
  }

  /** No ASN but `v` is assigned anywhere. */
  ghost predicate OnlyAsn(t: Trie, v: nat) {
    forall a :: HasAsn(t, a) ==> a == 0 || a == v
  }

  // ---------------------------------------------------------------- canonical tries are their lookups

  lemma {:induction false} AssignCanonical(t: Trie, prefix: Path, asn: nat)
    requires Canonical(t)
    ensures Canonical(Assign(t, prefix, asn))
    decreases |prefix|
  {
    if prefix != [] {
      AssignCanonical(Half(t, prefix[0]), prefix[1..], asn);
    }
  }

  /**
   * An assignment answers at and below its prefix and leaves every other path
   * alone; only a path strictly above the prefix is not covered by the two cases.
   */
  lemma {:induction false} LookupAfterAssign(t: Trie, prefix: Path, asn: nat, path: Path)
    requires Canonical(t) && !(path < prefix)
    ensures Lookup(Assign(t, prefix, asn), path) == if prefix <= path then Some(asn) else Lookup(t, path)
    decreases |prefix|
  {
    if prefix != [] {
      assert [] < prefix;
      assert prefix <= path <==> prefix[0] == path[0] && prefix[1..] <= path[1..];
      assert path < prefix <==> prefix[0] == path[0] && path[1..] < prefix[1..];
      var half := Half(t, prefix[0]);
      if path[0] == prefix[0] {
        LookupAfterAssign(half, prefix[1..], asn, path[1..]);
      }
      LookupHalf(t, path);
      LookupHalf(Assign(t, prefix, asn), path);
    }
  }

  lemma LookupHalf(t: Trie, path: Path)
    requires path != []
    ensures Lookup(t, path) == Lookup(Half(t, path[0]), path[1..])
  {
  }

  lemma {:induction false} DeepLookup(t: Trie, path: Path)
    requires |path| >= Depth(t)
    ensures Lookup(t, path).Some?
  {
    if t.Branch? {
      DeepLookup(Half(t, path[0]), path[1..]);
    }
  }

  ghost predicate SameAddresses(a: Trie, b: Trie, width: nat) {
    forall path: Path :: |path| == width ==> Lookup(a, path) == Lookup(b, path)
  }

  /** Two canonical tries that answer alike on every full-width address are the same trie. */
  lemma {:induction false} AddressesDetermineTrie(a: Trie, b: Trie, width: nat)
    requires Canonical(a) && Canonical(b) && Depth(a) <= width && Depth(b) <= width
    requires SameAddresses(a, b, width)
    ensures a == b
  {
    if a.Leaf? && b.Leaf? {
      var path: Path := seq(width, i => false);
      assert Lookup(a, path) == Lookup(b, path);
    } else {
      forall bit: bool ensures Half(a, bit) == Half(b, bit) {
        forall path: Path | |path| == width - 1
          ensures Lookup(Half(a, bit), path) == Lookup(Half(b, bit), path)
        {
          LookupHalf(a, [bit] + path);
          LookupHalf(b, [bit] + path);
        }
        AddressesDetermineTrie(Half(a, bit), Half(b, bit), width - 1);
      }
      assert a == Merge(Half(a, false), Half(a, true));
      assert b == Merge(Half(b, false), Half(b, true));
    }
  }

  // ---------------------------------------------------------------- extends

  /** `req` leaves the address unassigned or `actual` gives it the same answer. */
  ghost predicate Agrees(actual: Trie, req: Trie, path: Path) {
    Lookup(req, path) == Some(0) || Lookup(req, path) == Lookup(actual, path)
  }

  /** `extends` means exactly: wherever `req` assigns an address, `actual` agrees. */
  lemma {:induction false} ExtendsMeaning(actual: Trie, req: Trie, width: nat)
    requires Depth(actual) <= width && Depth(req) <= width
    ensures Extends(actual, req) <==> forall path: Path :: |path| == width ==> Agrees(actual, req, path)
  {
    if actual.Leaf? && req.Leaf? {
      var path: Path := seq(width, i => false);
      assert Agrees(actual, req, path) <==> Extends(actual, req);
    } else {
      ExtendsMeaning(Half(actual, false), Half(req, false), width - 1);
      ExtendsMeaning(Half(actual, true), Half(req, true), width - 1);
      ExtendsHalves(actual, req);
      if !Extends(actual, req) {
        var bit :| !Extends(Half(actual, bit), Half(req, bit));
        var path: Path :| |path| == width - 1 && !Agrees(Half(actual, bit), Half(req, bit), path);
        LookupHalf(actual, [bit] + path);
        LookupHalf(req, [bit] + path);
        assert !Agrees(actual, req, [bit] + path);
      } else {
        forall path: Path | |path| == width ensures Agrees(actual, req, path) {
          LookupHalf(actual, path);
          LookupHalf(req, path);
          assert Agrees(Half(actual, path[0]), Half(req, path[0]), path[1..]);
        }
      }
    }
  }

  lemma ExtendsHalves(actual: Trie, req: Trie)
    ensures Extends(actual, req) <==>
      Extends(Half(actual, false), Half(req, false)) && Extends(Half(actual, true), Half(req, true))
  {
  }

  lemma {:induction false} ExtendsReflexive(t: Trie)
    ensures Extends(t, t)
  {
    if t.Branch? {
      ExtendsReflexive(t.left);
      ExtendsReflexive(t.right);
    }
  }

  lemma {:induction false} LeafExtends(v: nat, req: Trie)
    requires OnlyAsn(req, v)
    ensures Extends(Leaf(v), req)
  {
    if req.Branch? {
      assert forall a :: HasAsn(req.left, a) || HasAsn(req.right, a) ==> HasAsn(req, a);
      LeafExtends(v, req.left);
      LeafExtends(v, req.right);
    } else {
      assert HasAsn(req, req.asn);
    }
  }

  /** What an encoding owes its source: equality, or with `fill` only an extension. */
  predicate Meets(actual: Trie, req: Trie, fill: bool) {
    if fill then Extends(actual, req) else actual == req
  }

  lemma MeetsBranch(l: Trie, r: Trie, req: Trie, fill: bool)
    requires req.Branch? && Canonical(req)
    ensures Meets(Merge(l, r), req, fill) <==> Meets(l, req.left, fill) && Meets(r, req.right, fill)
  {
    ExtendsHalves(Merge(l, r), req);
  }
}
