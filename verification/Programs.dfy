/** The shape of compiled programs: comparisons are fused eight at a time, and one ASN needs one RETURN. */
module Programs {
  import opened Wrappers
  import opened Powers
  import opened Ordering
  import opened Tries
  import opened Contexts
  import opened BinNodes
  import opened Compile

  // ---------------------------------------------------------------- no comparison is left unfused

  /** Wherever a MATCH follows a MATCH, the second one is full: eight bits below its leading one. */
  ghost predicate Fused(n: BinNode) {
    match n
    case Return(v) => true
    case Jump(l, r) => Fused(l) && Fused(r)
    case Match(val, sub) => (sub.Match? ==> sub.val > 0xff) && Fused(sub)
    case Default(v, sub) => Fused(sub)
    case End => true
  }

  ghost predicate AllFused(table: ProgramTable) {
    forall c :: c in table ==> Fused(table[c])
  }

  lemma BranchFused(l: BinNode, r: BinNode)
    requires Fused(l) && Fused(r)
    ensures Fused(BranchNode(l, r))
  {
  }

  lemma HalvesFused(l: ProgramTable, r: ProgramTable, c: Context, n: BinNode)
    requires AllFused(l) && AllFused(r) && FromHalves(PROGRAMS, l, r, c, n)
    ensures Fused(n)
  {
    if c in l && c in r && n == BranchNode(l[c], r[c]) {
      BranchFused(l[c], r[c]);
    } else if None in l && c in r && n == BranchNode(l[None], r[c]) {
      BranchFused(l[None], r[c]);
    } else {
      BranchFused(l[c], r[None]);
    }
  }

  lemma StepFused(l: ProgramTable, r: ProgramTable, hole: bool)
    requires AllFused(l) && AllFused(r)
    ensures AllFused(JoinStep(PROGRAMS, l, r, hole))
  {
    var table := JoinStep(PROGRAMS, l, r, hole);
    forall c | c in table ensures Fused(table[c]) {
      StepProvenance(PROGRAMS, l, r, hole, c);
      if FromHalves(PROGRAMS, l, r, c, table[c]) {
        HalvesFused(l, r, c, table[c]);
      } else {
        var k, y :| FromHalves(PROGRAMS, l, r, Some(k), y) && table[c] == PROGRAMS.cover(k, y);
        HalvesFused(l, r, Some(k), y);
        assert table[c] == DefaultNode(k, y);
      }
    }
  }

  lemma {:induction false} TableFused(t: Trie, fill: bool)
    ensures AllFused(Tabulate(PROGRAMS, t, fill).0)
  {
    if t.Branch? {
      TableFused(t.left, fill);
      TableFused(t.right, fill);
      TableOfBranch(PROGRAMS, t, fill);
      StepFused(Tabulate(PROGRAMS, t.left, fill).0, Tabulate(PROGRAMS, t.right, fill).0, Hole(t, fill));
    }
  }

  /** No compiled program holds a comparison that would have fitted the one below it. */
  lemma CompiledFused(t: Trie, fill: bool)
    ensures Fused(ToNode(t, fill))
  {
    TableFused(t, fill);
    BestFound(PROGRAMS, t, fill);
  }

  // ---------------------------------------------------------------- the program of one path

  /** A leading one, then the bits in the order they are compared. */
  function PathBits(path: Path): (v: nat)
    ensures v >= 1
  {
    if path == [] then 1
    else 2 * PathBits(path[..|path| - 1]) + if path[|path| - 1] then 1 else 0
  }

  /** Full MATCHes at the bottom, the bits left over in the one on top. */
  function Chain(path: Path, asn: nat): BinNode
    decreases |path|
  {
    if path == [] then Return(asn)
    else
      var top := (|path| - 1) % 8 + 1;
      Match(PathBits(path[..top]), Chain(path[top..], asn))
  }

  function Matches(n: BinNode): nat {
    match n
    case Return(v) => 0
    case Jump(l, r) => Matches(l) + Matches(r)
    case Match(val, sub) => 1 + Matches(sub)
    case Default(v, sub) => Matches(sub)
    case End => 0
  }

  lemma {:induction false} ChainMatches(path: Path, asn: nat)
    ensures Matches(Chain(path, asn)) == (|path| + 7) / 8
    decreases |path|
  {
    if path != [] {
      ChainMatches(path[(|path| - 1) % 8 + 1..], asn);
    }
  }

  lemma {:induction false} PathBitsRange(path: Path)
    ensures Pow2(|path|) <= PathBits(path) < Pow2(|path| + 1)
    ensures BitLength(PathBits(path)) == |path| + 1
  {
    if path == [] {
      assert BitLength(1) == 1 && Pow2(1) == 2 * Pow2(0);
    } else {
      PathBitsRange(path[..|path| - 1]);
      assert PathBits(path) / 2 == PathBits(path[..|path| - 1]);
    }
  }

  /** One more bit to compare first. */
  lemma {:induction false} PathBitsPush(bit: bool, path: Path)
    ensures PathBits([bit] + path) == PathBits(path) + if bit then Pow2(|path| + 1) else Pow2(|path|)
  {
    var longer := [bit] + path;
    if path == [] {
      assert longer == [bit] && longer[..0] == [];
      assert Pow2(1) == 2 * Pow2(0);
    } else {
      PathBitsPush(bit, path[..|path| - 1]);
      assert longer[..|longer| - 1] == [bit] + path[..|path| - 1];
    }
  }

  lemma PushIsFusion(bit: bool, path: Path)
    ensures PathBits([bit] + path) == if bit then WithOne(PathBits(path)) else WithZero(PathBits(path))
  {
    PathBitsPush(bit, path);
    PathBitsRange(path);
  }

  /** A pattern of fewer than eight bits is one that takes another. */
  lemma ShortPattern(path: Path)
    requires 1 <= |path| <= 8
    ensures PathBits(path) <= 0xff <==> |path| < 8
  {
    PathBitsRange(path);
    assert Pow2(8) == 256;
    if |path| < 8 {
      Pow2Monotone(|path| + 1, 8);
    }
  }

  /** Follows the path on one bit and fails on the other. */
  function Turn(bit: bool, sub: BinNode): BinNode {
    if bit then BranchNode(End, sub) else BranchNode(sub, End)
  }

  lemma TurnMeaning(bit: bool, sub: BinNode)
    requires !sub.End?
    ensures Turn(bit, sub) ==
      if Fusible(sub) then Match(if bit then WithOne(sub.val) else WithZero(sub.val), sub.sub)
      else Match(if bit then 3 else 2, sub)
  {
  }

  /** How many bits the top MATCH holds when the ones below it are full. */
  lemma TopWidth(head: nat, rest: nat)
    requires 1 <= head <= 8 && rest % 8 == 0
    ensures (head + rest - 1) % 8 + 1 == head
  {
    assert rest == 8 * (rest / 8);
  }

  lemma ChainTop(head: Path, rest: Path, asn: nat)
    requires 1 <= |head| <= 8 && |rest| % 8 == 0
    ensures Chain(head + rest, asn) == Match(PathBits(head), Chain(rest, asn))
  {
    var path := head + rest;
    TopWidth(|head|, |rest|);
    assert path[..|head|] == head && path[|head|..] == rest;
  }

  /** What stands below a full top is full, or is the RETURN. */
  lemma ChainFull(rest: Path, asn: nat)
    requires |rest| % 8 == 0
    ensures !Chain(rest, asn).End? && !Fusible(Chain(rest, asn))
  {
    if rest != [] {
      ChainTop(rest[..8], rest[8..], asn);
      assert rest[..8] + rest[8..] == rest;
      ShortPattern(rest[..8]);
    }
  }

  /** A full MATCH below, or none: the bit starts a new one. */
  lemma ChainOpens(bit: bool, rest: Path, asn: nat)
    requires |rest| % 8 == 0
    ensures Turn(bit, Chain(rest, asn)) == Chain([bit] + rest, asn)
  {
    ChainFull(rest, asn);
    ChainTop([bit], rest, asn);
    PathBitsPush(bit, []);
    assert [bit] + [] == [bit] && Pow2(1) == 2 * Pow2(0);
    TurnMeaning(bit, Chain(rest, asn));
  }

  /** A MATCH with room: the bit goes into it. */
  lemma ChainGrows(bit: bool, head: Path, rest: Path, asn: nat)
    requires 1 <= |head| < 8 && |rest| % 8 == 0
    ensures Turn(bit, Chain(head + rest, asn)) == Chain([bit] + head + rest, asn)
  {
    ChainTop(head, rest, asn);
    ChainTop([bit] + head, rest, asn);
    ShortPattern(head);
    PushIsFusion(bit, head);
    TurnMeaning(bit, Chain(head + rest, asn));
  }

  lemma ChainPush(bit: bool, path: Path, asn: nat)
    ensures Turn(bit, Chain(path, asn)) == Chain([bit] + path, asn)
  {
    var k := |path| % 8;
    if k == 0 {
      ChainOpens(bit, path, asn);
    } else {
      ChainGrows(bit, path[..k], path[k..], asn);
      assert path[..k] + path[k..] == path && [bit] + path[..k] + path[k..] == [bit] + path;
    }
  }

  /** A map that assigns one prefix and nothing else. */
  function OnePath(path: Path, asn: nat): Trie {
    Assign(Leaf(0), path, asn)
  }

  lemma LeafTurn(bit: bool, asn: nat)
    requires asn > 0
    ensures OnePath([bit], asn) == if bit then Branch(Leaf(0), Leaf(asn)) else Branch(Leaf(asn), Leaf(0))
    ensures Tabulate(PROGRAMS, OnePath([bit], asn), false) == (map[Some(0) := Turn(bit, Return(asn))], true)
  {
    var hole, full := LeafTable(PROGRAMS, 0, false), LeafTable(PROGRAMS, asn, false);
    assert [bit][1..] == [] && Assign(Leaf(0), [], asn) == Leaf(asn);
    var l, r := if bit then hole else full, if bit then full else hole;
    HoleStep(l, r, Turn(bit, Return(asn)));
  }

  /** Under a hole only the unassigned context is left. */
  lemma HoleStep(l: ProgramTable, r: ProgramTable, n: BinNode)
    requires None !in l || None !in r
    requires BestJoin(PROGRAMS, l, r, Some(0)) == Some(n)
    ensures JoinStep(PROGRAMS, l, r, true) == map[Some(0) := n]
  {
    var joined := Joined(PROGRAMS, l, r);
    assert BestJoin(PROGRAMS, l, r, None).None?;
    assert None !in joined && Some(0) in joined;
    assert Pruned(PROGRAMS, joined) == joined;
  }

  lemma TurnTable(bit: bool, path: Path, asn: nat, n: BinNode)
    requires asn > 0 && path != [] && OnePath(path, asn).Branch?
    requires Tabulate(PROGRAMS, OnePath(path, asn), false) == (map[Some(0) := n], true)
    ensures var t := OnePath([bit] + path, asn);
      t.Branch? && Tabulate(PROGRAMS, t, false) == (map[Some(0) := Turn(bit, n)], true)
  {
    assert ([bit] + path)[1..] == path;
    var hole: ProgramTable := LeafTable(PROGRAMS, 0, false);
    var full: ProgramTable := map[Some(0) := n];
    HoleStep(if bit then hole else full, if bit then full else hole, Turn(bit, n));
  }

  lemma {:induction false} OnePathTable(path: Path, asn: nat)
    requires asn > 0 && path != []
    ensures OnePath(path, asn).Branch?
    ensures Tabulate(PROGRAMS, OnePath(path, asn), false) == (map[Some(0) := Chain(path, asn)], true)
  {
    var bit, rest := path[0], path[1..];
    assert path == [bit] + rest;
    ChainPush(bit, rest, asn);
    if rest == [] {
      LeafTurn(bit, asn);
      assert path == [bit];
    } else {
      OnePathTable(rest, asn);
      TurnTable(bit, rest, asn, Chain(rest, asn));
    }
  }

  /** A map that assigns one prefix of n bits compiles to ceil(n / 8) MATCHes and one RETURN. */
  lemma OnePathProgram(path: Path, asn: nat)
    requires asn > 0
    ensures ToNode(OnePath(path, asn), false) == Chain(path, asn)
    ensures Matches(ToNode(OnePath(path, asn), false)) == (|path| + 7) / 8
  {
    ChainMatches(path, asn);
    if path != [] {
      OnePathTable(path, asn);
    }
  }

  /** A program for an explicit context is kept only where it is smaller than the one for any. */
  lemma KeptContextsPay(t: Trie, fill: bool, k: nat)
    requires var table := Tabulate(PROGRAMS, t, fill).0; Some(k) in table && None in table
    ensures var table := Tabulate(PROGRAMS, t, fill).0; Size(table[Some(k)]) < Size(table[None])
  {
    InsSizes();
    TableStrict(PROGRAMS, t, fill);
  }

  // ---------------------------------------------------------------- filling

  /** The table of a subtree that knows one ASN, or none. */
  function SoleTable<X>(alg: Algebra<X>, asn: nat, present: bool): Table<X> {
    if present then map[Some(asn) := alg.nothing, None := alg.leaf(asn)] else map[None := alg.nothing]
  }

  /** Any program that looks at the address takes more than the bare RETURN. */
  lemma ReturnIsSmaller(asn: nat, lp: bool, rp: bool)
    requires lp || rp
    ensures Size(BranchNode(if lp then Return(asn) else End, if rp then Return(asn) else End)) > Size(Return(asn))
  {
    InsSizes();
  }

  lemma SoleJoin<X(!new)>(alg: Algebra<X>, asn: nat, lp: bool, rp: bool)
    requires lp || rp
    requires alg.join(alg.nothing, alg.nothing) == alg.nothing && alg.size(alg.nothing) == 0
    ensures var joined := Joined(alg, SoleTable(alg, asn, lp), SoleTable(alg, asn, rp));
      joined.Keys == {Some(asn), None} && joined[Some(asn)] == alg.nothing &&
      joined[None] == alg.join(if lp then alg.leaf(asn) else alg.nothing, if rp then alg.leaf(asn) else alg.nothing)
  {
    var l, r := SoleTable(alg, asn, lp), SoleTable(alg, asn, rp);
    assert BestJoin(alg, l, r, Some(asn)) == Some(alg.nothing);
    assert BestJoin(alg, l, r, None) == Some(alg.join(l[None], r[None]));
    assert forall c :: c in l.Keys + r.Keys <==> c == Some(asn) || c == None;
  }

  /** One explicit context and the one for any: the default loop offers one cover. */
  lemma SoleCover<X(!new)>(alg: Algebra<X>, t: Table<X>, k: nat)
    requires t.Keys == {Some(k), None} && alg.size(alg.cover(k, t[Some(k)])) < alg.size(t[None])
    ensures Covered(alg, t) == t[None := alg.cover(k, t[Some(k)])]
  {
    var ks := Sorted(NatLe, Asns(t));
    assert Asns(t) == {k};
    assert ks[0] in ks && ks == [k];
    assert ks[..0] == [];
    assert BestCover(alg, t, [], Get(t, None)) == Some(t[None]);
    assert BestCover(alg, t, ks, Get(t, None)) == Some(alg.cover(k, t[Some(k)]));
  }

  lemma SoleRetained<X(!new)>(alg: Algebra<X>, t: Table<X>, k: nat, x: X)
    requires t.Keys == {Some(k), None} && t[Some(k)] == x && alg.size(alg.cover(k, x)) < alg.size(t[None])
    requires alg.size(x) < alg.size(alg.cover(k, x))
    ensures Confined(Pruned(alg, Covered(alg, t)), false) == map[Some(k) := x, None := alg.cover(k, x)]
  {
    SoleCover(alg, t, k);
  }

  lemma SoleStep(asn: nat, lp: bool, rp: bool)
    requires asn > 0 && (lp || rp)
    ensures JoinStep(PROGRAMS, SoleTable(PROGRAMS, asn, lp), SoleTable(PROGRAMS, asn, rp), false) ==
            SoleTable(PROGRAMS, asn, true)
  {
    SoleJoin(PROGRAMS, asn, lp, rp);
    ReturnIsSmaller(asn, lp, rp);
    InsSizes();
    assert Size(End) < Size(Return(asn)) && DefaultNode(asn, End) == Return(asn);
    SoleRetained(PROGRAMS, Joined(PROGRAMS, SoleTable(PROGRAMS, asn, lp), SoleTable(PROGRAMS, asn, rp)), asn, End);
  }

  lemma EmptyStep(asn: nat)
    requires asn > 0
    ensures var t := SoleTable(PROGRAMS, asn, false); JoinStep(PROGRAMS, t, t, false) == t
  {
    var t := SoleTable(PROGRAMS, asn, false);
    var joined := Joined(PROGRAMS, t, t);
    assert BestJoin(PROGRAMS, t, t, None) == Some(End);
    assert joined == t;
    assert Asns(joined) == {} && Sorted(NatLe, {}) == [];
  }

  lemma {:induction false} SoleTabulated(t: Trie, asn: nat)
    requires asn > 0 && OnlyAsn(t, asn)
    ensures Tabulate(PROGRAMS, t, true) == (SoleTable(PROGRAMS, asn, HasAsn(t, asn)), t == Leaf(0))
  {
    match t {
      case Leaf(v) => assert HasAsn(t, v);
      case Branch(l, r) =>
        assert forall a :: HasAsn(l, a) || HasAsn(r, a) ==> HasAsn(t, a);
        SoleTabulated(l, asn);
        SoleTabulated(r, asn);
        if HasAsn(t, asn) {
          SoleStep(asn, HasAsn(l, asn), HasAsn(r, asn));
        } else {
          EmptyStep(asn);
        }
    }
  }

  /** With `fill`, a map that knows one ASN is that one RETURN, however its ranges lie. */
  lemma FilledSoleAsn(t: Trie, asn: nat)
    requires asn > 0 && HasAsn(t, asn) && OnlyAsn(t, asn)
    ensures ToNode(t, true) == Return(asn)
  {
    SoleTabulated(t, asn);
  }
}
